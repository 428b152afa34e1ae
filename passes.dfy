/** The assembly passes of GraphBuilder, as functions from a graph to the graph
    the pass leaves behind. Each pass walks its list once, in order; a step is
    what one element of the list does. A list the source lets be null is an
    `Option`, and a null list leaves the graph as it was. */
module Passes {
  import opened Wrappers
  import opened IdentifierNodes
  import opened Network

  /** A name with the first simple name of its declared type, or none. */
  datatype TypedName = TypedName(name: string, typeName: Option<string>)
  /** A cast: the text of the cast expression and the cast type's name. */
  datatype CastPair = CastPair(expr: string, typeName: string)
  /** A call and the variable whose declaration contains it. */
  datatype CallVar = CallVar(call: string, variable: string)
  /** A call and the last segment of its scope. */
  datatype CallScope = CallScope(call: string, scope: string)
  /** A name with its kind, "call" or "var". */
  datatype Reference = Reference(name: string, kind: string)
  /** A call and one of its arguments. */
  datatype CallArg = CallArg(call: string, arg: Reference)
  /** An assignment's target and its value. */
  datatype VarAssign = VarAssign(target: string, source: Reference)

  const ImportFeature := "import"
  const ParamFeature := "param"
  const VarFeature := "var"
  const CallFeature := "call"
  const IdFeature := "id"
  const CallKind := "call"

  /** Folding a pass over its list, first element first. */
  function Fold<T>(g: BuilderGraph, xs: seq<T>, step: (BuilderGraph, T) -> BuilderGraph): BuilderGraph
    decreases |xs|
  {
    if xs == [] then g else step(Fold(g, xs[..|xs| - 1], step), xs[|xs| - 1])
  }

  /** Folding a pass whose steps may throw: the first exception ends the pass. */
  function TryFold<T>(g: BuilderGraph, xs: seq<T>, step: (BuilderGraph, T) -> Result<BuilderGraph>): Result<BuilderGraph>
    decreases |xs|
  {
    if xs == [] then Success(g)
    else
      var h :- TryFold(g, xs[..|xs| - 1], step);
      step(h, xs[|xs| - 1])
  }

  /** A fold of steps that only append only appends. */
  lemma {:induction false} FoldExtends<T>(g: BuilderGraph, xs: seq<T>, step: (BuilderGraph, T) -> BuilderGraph)
    requires forall h: BuilderGraph, x: T :: Extends(h, step(h, x))
    ensures Extends(g, Fold(g, xs, step))
    decreases |xs|
  {
    if xs != [] {
      FoldExtends(g, xs[..|xs| - 1], step);
    }
  }

  /** A fold of fallible steps that only append only appends, when it succeeds. */
  lemma {:induction false} TryFoldExtends<T>(g: BuilderGraph, xs: seq<T>, step: (BuilderGraph, T) -> Result<BuilderGraph>)
    requires forall h: BuilderGraph, x: T :: step(h, x).Success? ==> Extends(h, step(h, x).value)
    ensures TryFold(g, xs, step).Success? ==> Extends(g, TryFold(g, xs, step).value)
    decreases |xs|
  {
    if xs != [] {
      TryFoldExtends(g, xs[..|xs| - 1], step);
    }
  }

  // ---- setExceptionNodes -------------------------------------------------

  /** A new "import" node for the exception, and root --dependsOn-> it. */
  function ExceptionStep(g: BuilderGraph, e: string): (h: BuilderGraph)
    ensures Extends(g, h)
  {
    Link(AddNode(g, NodeData(e, ImportFeature)), "dependsOn", Root, |g.nodes|)
  }

  function ExceptionsPass(g: BuilderGraph, exceptions: seq<string>): (h: BuilderGraph)
    ensures Extends(g, h)
  {
    FoldExtends(g, exceptions, ExceptionStep);
    Fold(g, exceptions, ExceptionStep)
  }

  // ---- setParameterNodes / setVariableNodes -------------------------------

  /** The type handling shared by parameters and variables, for the node at `v`:
      a type not yet present as an "import" node gets one, with root --dependsOn->
      it and v --type-> it; a type already present gets only v --type-> it. */
  function AttachType(g: BuilderGraph, v: nat, typeName: Option<string>): (h: BuilderGraph)
    requires v < |g.nodes| && g.nodes[v].feature != ImportFeature
    ensures Extends(g, h)
  {
    match typeName
    case None => g
    case Some(t) =>
      if !NodeAndFeatureInGraph(g, t, ImportFeature) then
        var g1 := AddNode(g, NodeData(t, ImportFeature));
        var g2 := Link(g1, "dependsOn", Root, |g.nodes|);
        Link(g2, "type", v, |g.nodes|)
      else
        match GetNodeWithFeature(g, t, ImportFeature)
        case Some(ti) => Link(g, "type", v, ti)
        case None => g
  }

  /** A new "param" node with root --parameter-> it, then its type. */
  function ParameterStep(g: BuilderGraph, p: TypedName): (h: BuilderGraph)
    ensures Extends(g, h)
  {
    var g1 := Link(AddNode(g, NodeData(p.name, ParamFeature)), "parameter", Root, |g.nodes|);
    AttachType(g1, |g.nodes|, p.typeName)
  }

  function ParametersPass(g: BuilderGraph, parameters: seq<TypedName>): (h: BuilderGraph)
    ensures Extends(g, h)
  {
    FoldExtends(g, parameters, ParameterStep);
    Fold(g, parameters, ParameterStep)
  }

  /** A name already present as a "var" node changes nothing; otherwise a new
      "var" node, its type, and root --defines-> it. */
  function VariableStep(g: BuilderGraph, v: TypedName): (h: BuilderGraph)
    ensures Extends(g, h)
  {
    if NodeAndFeatureInGraph(g, v.name, VarFeature) then g
    else
      var g1 := AddNode(g, NodeData(v.name, VarFeature));
      var g2 := AttachType(g1, |g.nodes|, v.typeName);
      Link(g2, "defines", Root, |g.nodes|)
  }

  function VariablesPass(g: BuilderGraph, variables: Option<seq<TypedName>>): (h: BuilderGraph)
    ensures Extends(g, h)
  {
    if variables.None? then g
    else
      FoldExtends(g, variables.value, VariableStep);
      Fold(g, variables.value, VariableStep)
  }

  // ---- setVariableCasts ---------------------------------------------------

  /** The node with this label and feature if there is one; otherwise a new one,
      linked from the root by `relation`. */
  function ReuseOrAdd(g: BuilderGraph, name: string, feature: string, relation: string): (r: (BuilderGraph, nat))
    requires feature != MethodFeature
    ensures Extends(g, r.0)
    ensures r.1 < |r.0.nodes| && r.0.nodes[r.1] == NodeData(name, feature)
    ensures NodeAndFeatureInGraph(g, name, feature) ==> r.0 == g
    ensures !NodeAndFeatureInGraph(g, name, feature) ==>
      r.1 == |g.nodes| && r.0.nodes == g.nodes + [NodeData(name, feature)]
      && r.0.edges == g.edges + [Edge(relation, Root, |g.nodes|)]
  {
    match GetNodeWithFeature(g, name, feature)
    case Some(i) => (g, i)
    case None => (Link(AddNode(g, NodeData(name, feature)), relation, Root, |g.nodes|), |g.nodes|)
  }

  /** A null entry is skipped. Otherwise the "var" node for the expression and the
      "import" node for the type are reused or created, and var --type-> import
      is added every time. */
  function CastStep(g: BuilderGraph, c: Option<CastPair>): (h: BuilderGraph)
    ensures Extends(g, h)
  {
    match c
    case None => g
    case Some(c) =>
      var (g1, vi) := ReuseOrAdd(g, c.expr, VarFeature, "defines");
      var (g2, ti) := ReuseOrAdd(g1, c.typeName, ImportFeature, "dependsOn");
      Link(g2, "type", vi, ti)
  }

  function CastsPass(g: BuilderGraph, casts: Option<seq<Option<CastPair>>>): (h: BuilderGraph)
    ensures Extends(g, h)
  {
    if casts.None? then g
    else
      FoldExtends(g, casts.value, CastStep);
      Fold(g, casts.value, CastStep)
  }

  // ---- setCallNodes / setCallNodesVarDependency --------------------------

  /** A new "call" node; no edge. */
  function CallStep(g: BuilderGraph, c: string): (h: BuilderGraph)
    ensures Extends(g, h)
  {
    AddNode(g, NodeData(c, CallFeature))
  }

  function CallsPass(g: BuilderGraph, calls: Option<seq<string>>): (h: BuilderGraph)
    ensures Extends(g, h)
  {
    if calls.None? then g
    else
      FoldExtends(g, calls.value, CallStep);
      Fold(g, calls.value, CallStep)
  }

  /** var --calls-> call when both nodes exist and no edge of any relation
      already runs from the var to the call. */
  function CallVarStep(g: BuilderGraph, d: CallVar): (h: BuilderGraph)
    ensures Extends(g, h)
  {
    match (GetNodeWithFeature(g, d.call, CallFeature), GetNodeWithFeature(g, d.variable, VarFeature))
    case (Some(ci), Some(vi)) =>
      if !EdgeBetweenNodes(g, vi, ci) then Link(g, "calls", vi, ci) else g
    case _ => g
  }

  function CallVarDependencyPass(g: BuilderGraph, dependencies: Option<seq<CallVar>>): (h: BuilderGraph)
    ensures Extends(g, h)
  {
    if dependencies.None? then g
    else
      FoldExtends(g, dependencies.value, CallVarStep);
      Fold(g, dependencies.value, CallVarStep)
  }

  // ---- setCallScopes ------------------------------------------------------

  /** A null entry, or a call with no "call" node, changes nothing. A scope label
      found on any non-root node gets scope --scope-> call unless some edge
      already runs between them; a scope label found nowhere becomes a new "id"
      node with id --scope-> call. */
  function ScopeStep(g: BuilderGraph, s: Option<CallScope>): (r: Result<BuilderGraph>)
    ensures r.Success? ==> Extends(g, r.value)
  {
    match s
    case None => Success(g)
    case Some(s) =>
      match GetNodeWithFeature(g, s.call, CallFeature)
      case None => Success(g)
      case Some(ci) =>
        match GetNode(g, s.scope)
        case Some(si) =>
          if !EdgeBetweenNodes(g, si, ci) then TryLink(g, "scope", si, ci) else Success(g)
        case None =>
          Success(Link(AddNode(g, NodeData(s.scope, IdFeature)), "scope", |g.nodes|, ci))
  }

  function CallScopesPass(g: BuilderGraph, scopes: Option<seq<Option<CallScope>>>): (r: Result<BuilderGraph>)
    ensures r.Success? ==> Extends(g, r.value)
  {
    if scopes.None? then Success(g)
    else
      TryFoldExtends(g, scopes.value, ScopeStep);
      TryFold(g, scopes.value, ScopeStep)
  }

  // ---- setCallArguments / setVarAssigns ----------------------------------

  /** The node a reference resolves to. Kind "call" looks for a "call" node and
      may find none. Any other kind looks for a "param" node, then a "var" node,
      and otherwise adds a new "id" node. */
  function Resolve(g: BuilderGraph, ref: Reference): (r: (BuilderGraph, Option<nat>))
    ensures Extends(g, r.0)
    ensures r.1.Some? ==> r.1.value < |r.0.nodes| && r.0.nodes[r.1.value].name == ref.name
    // kind "call": only a "call" node will do, and a missing one drops the reference
    ensures ref.kind == CallKind ==> r.0 == g
    ensures ref.kind == CallKind ==> (r.1.Some? <==> NodeAndFeatureInGraph(g, ref.name, CallFeature))
    ensures ref.kind == CallKind && r.1.Some? ==> g.nodes[r.1.value].feature == CallFeature
    // any other kind: a "param" node first, then a "var" node, else a new "id" node
    ensures ref.kind != CallKind ==> r.1.Some?
    ensures ref.kind != CallKind && NodeAndFeatureInGraph(g, ref.name, ParamFeature) ==>
      r.0 == g && g.nodes[r.1.value].feature == ParamFeature
    ensures ref.kind != CallKind && !NodeAndFeatureInGraph(g, ref.name, ParamFeature) ==>
      NodeAndFeatureInGraph(g, ref.name, VarFeature) ==> r.0 == g && g.nodes[r.1.value].feature == VarFeature
    ensures ref.kind != CallKind && !NodeAndFeatureInGraph(g, ref.name, ParamFeature) ==>
      !NodeAndFeatureInGraph(g, ref.name, VarFeature) ==>
      r.1 == Some(|g.nodes|) && r.0.nodes == g.nodes + [NodeData(ref.name, IdFeature)] && r.0.edges == g.edges
  {
    var found :=
      if ref.kind == CallKind then GetNodeWithFeature(g, ref.name, CallFeature)
      else
        match GetNodeWithFeature(g, ref.name, ParamFeature)
        case Some(i) => Some(i)
        case None => GetNodeWithFeature(g, ref.name, VarFeature);
    if found.None? && ref.kind != CallKind then (AddNode(g, NodeData(ref.name, IdFeature)), Some(|g.nodes|))
    else (g, found)
  }

  /** The argument is resolved (which may add an "id" node even when the call is
      missing); call --arg-> argument is added when both are known and no "arg"
      edge already runs from the call to an equal node. */
  function ArgStep(g: BuilderGraph, a: CallArg): (r: Result<BuilderGraph>)
    ensures r.Success? ==> Extends(g, r.value)
  {
    var call := GetNodeWithFeature(g, a.call, CallFeature);
    var (g1, arg) := Resolve(g, a.arg);
    if call.Some? && arg.Some? then
      if !EdgeNamedBetweenNodes(g1, call.value, arg.value, "arg") then TryLink(g1, "arg", call.value, arg.value)
      else Success(g1)
    else Success(g1)
  }

  function CallArgumentsPass(g: BuilderGraph, args: Option<seq<CallArg>>): (r: Result<BuilderGraph>)
    ensures r.Success? ==> Extends(g, r.value)
  {
    if args.None? then Success(g)
    else
      TryFoldExtends(g, args.value, ArgStep);
      TryFold(g, args.value, ArgStep)
  }

  /** The source is resolved as for arguments; var --relatedTo-> source is added
      when the target "var" node exists and no edge of any relation already runs
      between them. */
  function AssignStep(g: BuilderGraph, a: VarAssign): (r: Result<BuilderGraph>)
    ensures r.Success? ==> Extends(g, r.value)
  {
    var target := GetNodeWithFeature(g, a.target, VarFeature);
    var (g1, source) := Resolve(g, a.source);
    if target.Some? && source.Some? then
      if !EdgeBetweenNodes(g1, target.value, source.value) then TryLink(g1, "relatedTo", target.value, source.value)
      else Success(g1)
    else Success(g1)
  }

  function VarAssignsPass(g: BuilderGraph, assigns: Option<seq<VarAssign>>): (r: Result<BuilderGraph>)
    ensures r.Success? ==> Extends(g, r.value)
  {
    if assigns.None? then Success(g)
    else
      TryFoldExtends(g, assigns.value, AssignStep);
      TryFold(g, assigns.value, AssignStep)
  }

  // ---- checkRootRelations -------------------------------------------------

  /** For the node at `i`: root --contains-> it when it is not the "method" node
      and no edge runs from the root to it yet. */
  function ContainsStep(g: BuilderGraph, i: nat): (h: BuilderGraph)
    ensures Extends(g, h)
  {
    if i < |g.nodes| && g.nodes[i].feature != MethodFeature && !EdgeBetweenNodes(g, Root, i) then
      Link(g, "contains", Root, i)
    else g
  }

  /** The positions 0 .. n-1. */
  function Positions(n: nat): (r: seq<nat>)
    ensures |r| == n && forall i :: 0 <= i < n ==> r[i] == i
  {
    seq(n, i => i)
  }

  /** The closing pass visits every node once, in insertion order. */
  function RootRelationsPass(g: BuilderGraph): (h: BuilderGraph)
    ensures Extends(g, h)
  {
    FoldExtends(g, Positions(|g.nodes|), ContainsStep);
    Fold(g, Positions(|g.nodes|), ContainsStep)
  }
}
