/** What the passes promise about the graph they grow: which nodes stay unique,
    which relations are never doubled, what each step adds, and where the
    deduplication is uneven (repeated "id" nodes, repeated cast "type" edges,
    self-loops the network refuses). */
module PassProperties {
  import opened Wrappers
  import opened IdentifierNodes
  import opened Network
  import opened Passes

  // ---- invariants ---------------------------------------------------------

  /** No two nodes of feature `f` share a label. */
  predicate UniqueFeature(g: Graph, f: string)
  {
    forall i, j :: 0 <= i < j < |g.nodes| && g.nodes[i].feature == f ==> g.nodes[j] != g.nodes[i]
  }

  /** No edge named `rel` has an earlier edge (of any relation) between the same
      two nodes. */
  predicate LinkedOnce(g: Graph, rel: string)
  {
    forall k, k' :: 0 <= k' < k < |g.edges| && g.edges[k].value == rel ==>
      !(g.edges[k'].source == g.edges[k].source && g.edges[k'].target == g.edges[k].target)
  }

  /** No "arg" edge has an earlier "arg" edge from the same call to an equal node. */
  predicate ArgLinkedOnce(g: BuilderGraph)
  {
    forall k, k' ::
      (0 <= k' < k < |g.edges| && g.edges[k].value == "arg" && g.edges[k'].value == "arg"
       && g.edges[k'].source == g.edges[k].source) ==>
      g.nodes[g.edges[k'].target] != g.nodes[g.edges[k].target]
  }

  /** What every pass after the exceptions keeps: a name appears once as a "var",
      once as a "call" and once as an "import" node; "calls", "scope" and
      "relatedTo" never join two nodes already joined; "arg" never repeats
      towards an equal node. */
  predicate Disciplined(g: BuilderGraph)
  {
    && UniqueFeature(g, VarFeature)
    && UniqueFeature(g, CallFeature)
    && UniqueFeature(g, ImportFeature)
    && LinkedOnce(g, "calls")
    && LinkedOnce(g, "scope")
    && LinkedOnce(g, "relatedTo")
    && ArgLinkedOnce(g)
  }

  /** No two elements of the list are equal. */
  predicate NoDuplicates<T(==)>(xs: seq<T>)
  {
    forall i, j :: 0 <= i < j < |xs| ==> xs[i] != xs[j]
  }

  // ---- one node, one edge -------------------------------------------------

  /** Adding a node keeps the invariants unless it repeats a guarded label. */
  lemma AddNodeKeeps(g: BuilderGraph, n: NodeData)
    requires n.feature != MethodFeature && Disciplined(g)
    requires n.feature in [VarFeature, CallFeature, ImportFeature] ==> !NodeAndFeatureInGraph(g, n.name, n.feature)
    ensures Disciplined(AddNode(g, n))
  {
    var h := AddNode(g, n);
    forall f | f in [VarFeature, CallFeature, ImportFeature] ensures UniqueFeature(h, f) {
      forall i, j | 0 <= i < j < |h.nodes| && h.nodes[i].feature == f ensures h.nodes[j] != h.nodes[i] {
        if j == |g.nodes| {
          assert h.nodes[i] == g.nodes[i];
        }
      }
    }
  }

  /** Adding an edge named `value` keeps `LinkedOnce(·, rel)` when it is not a
      `rel` edge or when no edge joins its endpoints yet. */
  lemma LinkKeepsLinkedOnce(g: BuilderGraph, value: string, source: nat, target: nat, rel: string)
    requires source < |g.nodes| && target < |g.nodes| && g.nodes[source] != g.nodes[target]
    requires LinkedOnce(g, rel)
    requires value == rel ==> !EdgeBetweenNodes(g, source, target)
    ensures LinkedOnce(Link(g, value, source, target), rel)
  {
    var h := Link(g, value, source, target);
    forall k, k' | 0 <= k' < k < |h.edges| && h.edges[k].value == rel
      ensures !(h.edges[k'].source == h.edges[k].source && h.edges[k'].target == h.edges[k].target)
    {
      if k == |g.edges| {
        assert h.edges[k'] == g.edges[k'];
      }
    }
  }

  /** Adding an edge keeps the invariants when each guarded relation is added
      only where its guard lets it. */
  lemma LinkKeeps(g: BuilderGraph, value: string, source: nat, target: nat)
    requires source < |g.nodes| && target < |g.nodes| && g.nodes[source] != g.nodes[target]
    requires Disciplined(g)
    requires value in ["calls", "scope", "relatedTo"] ==> !EdgeBetweenNodes(g, source, target)
    requires value == "arg" ==> !EdgeNamedBetweenNodes(g, source, target, "arg")
    ensures Disciplined(Link(g, value, source, target))
  {
    LinkKeepsLinkedOnce(g, value, source, target, "calls");
    LinkKeepsLinkedOnce(g, value, source, target, "scope");
    LinkKeepsLinkedOnce(g, value, source, target, "relatedTo");
    var h := Link(g, value, source, target);
    forall k, k' | 0 <= k' < k < |h.edges| && h.edges[k].value == "arg" && h.edges[k'].value == "arg"
      && h.edges[k'].source == h.edges[k].source
      ensures h.nodes[h.edges[k'].target] != h.nodes[h.edges[k].target]
    {
      if k == |g.edges| {
        assert h.edges[k'] == g.edges[k'];
      }
    }
  }

  /** Adding a node keeps every edge test between old nodes, and the new node
      has no edge yet. */
  lemma FreshHasNoEdges(g: BuilderGraph, n: NodeData, s: nat)
    requires n.feature != MethodFeature
    ensures !EdgeBetweenNodes(AddNode(g, n), |g.nodes|, s)
    ensures forall u, t :: EdgeBetweenNodes(AddNode(g, n), u, t) <==> EdgeBetweenNodes(g, u, t)
  {
    forall k | 0 <= k < |g.edges| ensures g.edges[k].source < |g.nodes| {
      assert EdgeFits(g.nodes, g.edges[k]);
    }
  }

  /** An "arg" edge test towards an old node gives the same answer after a node
      is added. */
  lemma AddNodeKeepsEdgeNamed(g: BuilderGraph, n: NodeData, s: nat, t: nat, rel: string)
    requires n.feature != MethodFeature && t < |g.nodes|
    ensures EdgeNamedBetweenNodes(AddNode(g, n), s, t, rel) <==> EdgeNamedBetweenNodes(g, s, t, rel)
  {
    var h := AddNode(g, n);
    if EdgeNamedBetweenNodes(h, s, t, rel) {
      var k :| 0 <= k < |h.edges| && h.edges[k].source == s
        && h.nodes[h.edges[k].target] == h.nodes[t] && h.edges[k].value == rel;
      assert EdgeFits(g.nodes, g.edges[k]);
    }
  }

  // ---- one step -----------------------------------------------------------

  /** A new exception keeps the invariants when no "import" node has its name. */
  lemma ExceptionStepKeeps(g: BuilderGraph, e: string)
    requires Disciplined(g) && !NodeAndFeatureInGraph(g, e, ImportFeature)
    ensures Disciplined(ExceptionStep(g, e))
  {
    AddNodeKeeps(g, NodeData(e, ImportFeature));
    LinkKeeps(AddNode(g, NodeData(e, ImportFeature)), "dependsOn", Root, |g.nodes|);
  }

  lemma AttachTypeKeeps(g: BuilderGraph, v: nat, typeName: Option<string>)
    requires v < |g.nodes| && g.nodes[v].feature != ImportFeature
    requires Disciplined(g)
    ensures Disciplined(AttachType(g, v, typeName))
  {
    if typeName.Some? {
      var t := typeName.value;
      if !NodeAndFeatureInGraph(g, t, ImportFeature) {
        AddNodeKeeps(g, NodeData(t, ImportFeature));
        var g1 := AddNode(g, NodeData(t, ImportFeature));
        LinkKeeps(g1, "dependsOn", Root, |g.nodes|);
        LinkKeeps(Link(g1, "dependsOn", Root, |g.nodes|), "type", v, |g.nodes|);
      } else {
        var ti := GetNodeWithFeature(g, t, ImportFeature).value;
        LinkKeeps(g, "type", v, ti);
      }
    }
  }

  lemma ParameterStepKeeps(g: BuilderGraph, p: TypedName)
    requires Disciplined(g)
    ensures Disciplined(ParameterStep(g, p))
  {
    var g0 := AddNode(g, NodeData(p.name, ParamFeature));
    AddNodeKeeps(g, NodeData(p.name, ParamFeature));
    LinkKeeps(g0, "parameter", Root, |g.nodes|);
    AttachTypeKeeps(Link(g0, "parameter", Root, |g.nodes|), |g.nodes|, p.typeName);
  }

  lemma VariableStepKeeps(g: BuilderGraph, v: TypedName)
    requires Disciplined(g)
    ensures Disciplined(VariableStep(g, v))
  {
    if !NodeAndFeatureInGraph(g, v.name, VarFeature) {
      var g1 := AddNode(g, NodeData(v.name, VarFeature));
      AddNodeKeeps(g, NodeData(v.name, VarFeature));
      AttachTypeKeeps(g1, |g.nodes|, v.typeName);
      var g2 := AttachType(g1, |g.nodes|, v.typeName);
      assert g2.nodes[|g.nodes|] == g1.nodes[|g.nodes|];
      LinkKeeps(g2, "defines", Root, |g.nodes|);
      assert VariableStep(g, v) == Link(g2, "defines", Root, |g.nodes|);
    }
  }

  lemma ReuseOrAddKeeps(g: BuilderGraph, name: string, feature: string, relation: string)
    requires feature != MethodFeature && Disciplined(g)
    requires relation !in ["calls", "scope", "relatedTo", "arg"]
    ensures Disciplined(ReuseOrAdd(g, name, feature, relation).0)
  {
    if !NodeAndFeatureInGraph(g, name, feature) {
      AddNodeKeeps(g, NodeData(name, feature));
      LinkKeeps(AddNode(g, NodeData(name, feature)), relation, Root, |g.nodes|);
    }
  }

  lemma CastStepKeeps(g: BuilderGraph, c: Option<CastPair>)
    requires Disciplined(g)
    ensures Disciplined(CastStep(g, c))
  {
    if c.Some? {
      var (g1, vi) := ReuseOrAdd(g, c.value.expr, VarFeature, "defines");
      ReuseOrAddKeeps(g, c.value.expr, VarFeature, "defines");
      var (g2, ti) := ReuseOrAdd(g1, c.value.typeName, ImportFeature, "dependsOn");
      ReuseOrAddKeeps(g1, c.value.typeName, ImportFeature, "dependsOn");
      LinkKeeps(g2, "type", vi, ti);
    }
  }

  /** A new call keeps the invariants when no "call" node has its name. */
  lemma CallStepKeeps(g: BuilderGraph, c: string)
    requires Disciplined(g) && !NodeAndFeatureInGraph(g, c, CallFeature)
    ensures Disciplined(CallStep(g, c))
  {
    AddNodeKeeps(g, NodeData(c, CallFeature));
  }

  lemma CallVarStepKeeps(g: BuilderGraph, d: CallVar)
    requires Disciplined(g)
    ensures Disciplined(CallVarStep(g, d))
  {
    var call := GetNodeWithFeature(g, d.call, CallFeature);
    var variable := GetNodeWithFeature(g, d.variable, VarFeature);
    if call.Some? && variable.Some? && !EdgeBetweenNodes(g, variable.value, call.value) {
      LinkKeeps(g, "calls", variable.value, call.value);
    }
  }

  lemma ScopeStepKeeps(g: BuilderGraph, s: Option<CallScope>)
    requires Disciplined(g)
    ensures ScopeStep(g, s).Success? ==> Disciplined(ScopeStep(g, s).value)
  {
    if s.Some? {
      var call := GetNodeWithFeature(g, s.value.call, CallFeature);
      var scope := GetNode(g, s.value.scope);
      if call.Some? {
        if scope.Some? {
          if !EdgeBetweenNodes(g, scope.value, call.value) && g.nodes[scope.value] != g.nodes[call.value] {
            LinkKeeps(g, "scope", scope.value, call.value);
          }
        } else {
          var n := NodeData(s.value.scope, IdFeature);
          AddNodeKeeps(g, n);
          FreshHasNoEdges(g, n, call.value);
          LinkKeeps(AddNode(g, n), "scope", |g.nodes|, call.value);
        }
      }
    }
  }

  lemma ResolveKeeps(g: BuilderGraph, ref: Reference)
    requires Disciplined(g)
    ensures Disciplined(Resolve(g, ref).0)
  {
    if Resolve(g, ref).0 != g {
      AddNodeKeeps(g, NodeData(ref.name, IdFeature));
    }
  }

  lemma ArgStepKeeps(g: BuilderGraph, a: CallArg)
    requires Disciplined(g)
    ensures ArgStep(g, a).Success? ==> Disciplined(ArgStep(g, a).value)
  {
    var call := GetNodeWithFeature(g, a.call, CallFeature);
    var (g1, arg) := Resolve(g, a.arg);
    ResolveKeeps(g, a.arg);
    if call.Some? && arg.Some? && !EdgeNamedBetweenNodes(g1, call.value, arg.value, "arg")
      && g1.nodes[call.value] != g1.nodes[arg.value]
    {
      LinkKeeps(g1, "arg", call.value, arg.value);
    }
  }

  lemma AssignStepKeeps(g: BuilderGraph, a: VarAssign)
    requires Disciplined(g)
    ensures AssignStep(g, a).Success? ==> Disciplined(AssignStep(g, a).value)
  {
    var target := GetNodeWithFeature(g, a.target, VarFeature);
    var (g1, source) := Resolve(g, a.source);
    ResolveKeeps(g, a.source);
    if target.Some? && source.Some? && !EdgeBetweenNodes(g1, target.value, source.value)
      && g1.nodes[target.value] != g1.nodes[source.value]
    {
      LinkKeeps(g1, "relatedTo", target.value, source.value);
    }
  }

  lemma ContainsStepKeeps(g: BuilderGraph, i: nat)
    requires Disciplined(g)
    ensures Disciplined(ContainsStep(g, i))
  {
    if i < |g.nodes| && g.nodes[i].feature != MethodFeature && !EdgeBetweenNodes(g, Root, i) {
      LinkKeeps(g, "contains", Root, i);
    }
  }

  // ---- whole passes -------------------------------------------------------

  /** A fold keeps what each of its steps keeps. */
  lemma {:induction false} FoldKeeps<T>(g: BuilderGraph, xs: seq<T>, step: (BuilderGraph, T) -> BuilderGraph,
                                        inv: BuilderGraph -> bool)
    requires inv(g)
    requires forall h: BuilderGraph, x: T :: inv(h) ==> inv(step(h, x))
    ensures inv(Fold(g, xs, step))
    decreases |xs|
  {
    if xs != [] {
      FoldKeeps(g, xs[..|xs| - 1], step, inv);
    }
  }

  /** A fallible fold keeps, when it succeeds, what each successful step keeps. */
  lemma {:induction false} TryFoldKeeps<T>(g: BuilderGraph, xs: seq<T>,
                                           step: (BuilderGraph, T) -> Result<BuilderGraph>, inv: BuilderGraph -> bool)
    requires inv(g)
    requires forall h: BuilderGraph, x: T :: inv(h) && step(h, x).Success? ==> inv(step(h, x).value)
    ensures TryFold(g, xs, step).Success? ==> inv(TryFold(g, xs, step).value)
    decreases |xs|
  {
    if xs != [] {
      TryFoldKeeps(g, xs[..|xs| - 1], step, inv);
    }
  }

  /** The exceptions pass appends one "import" node and one root --dependsOn->
      edge per exception, in list order. */
  lemma {:induction false} ExceptionsPassAppends(g: BuilderGraph, exceptions: seq<string>)
    ensures var h := ExceptionsPass(g, exceptions);
      && |h.nodes| == |g.nodes| + |exceptions| && |h.edges| == |g.edges| + |exceptions|
      && (forall i :: 0 <= i < |exceptions| ==> h.nodes[|g.nodes| + i] == NodeData(exceptions[i], ImportFeature))
      && (forall k :: |g.edges| <= k < |h.edges| ==> h.edges[k] == Edge("dependsOn", Root, |g.nodes| + (k - |g.edges|)))
    decreases |exceptions|
  {
    if exceptions != [] {
      var n := |exceptions| - 1;
      ExceptionsPassAppends(g, exceptions[..n]);
    }
  }

  /** With distinct exceptions none of which is already imported, the exceptions
      pass keeps the invariants. */
  lemma {:induction false} ExceptionsPassKeeps(g: BuilderGraph, exceptions: seq<string>)
    requires Disciplined(g) && NoDuplicates(exceptions)
    requires forall i :: 0 <= i < |exceptions| ==> !NodeAndFeatureInGraph(g, exceptions[i], ImportFeature)
    ensures Disciplined(ExceptionsPass(g, exceptions))
    decreases |exceptions|
  {
    if exceptions != [] {
      var n := |exceptions| - 1;
      var h := ExceptionsPass(g, exceptions[..n]);
      ExceptionsPassKeeps(g, exceptions[..n]);
      ExceptionsPassAppends(g, exceptions[..n]);
      forall j | 0 <= j < |h.nodes| ensures h.nodes[j] != NodeData(exceptions[n], ImportFeature) {
        if j >= |g.nodes| {
          assert h.nodes[j] == NodeData(exceptions[j - |g.nodes|], ImportFeature);
        } else {
          assert h.nodes[j] == g.nodes[j];
        }
      }
      ExceptionStepKeeps(h, exceptions[n]);
    }
  }

  /** The calls pass appends one "call" node per name, in list order, and no edge. */
  lemma {:induction false} CallsPassAppends(g: BuilderGraph, calls: seq<string>)
    ensures var h := CallsPass(g, Some(calls));
      && |h.nodes| == |g.nodes| + |calls| && h.edges == g.edges
      && (forall i :: 0 <= i < |calls| ==> h.nodes[|g.nodes| + i] == NodeData(calls[i], CallFeature))
    decreases |calls|
  {
    if calls != [] {
      CallsPassAppends(g, calls[..|calls| - 1]);
    }
  }

  /** With distinct names none of which is already a call, the calls pass keeps
      the invariants: each call name ends up on exactly one "call" node. */
  lemma {:induction false} CallsPassKeeps(g: BuilderGraph, calls: seq<string>)
    requires Disciplined(g) && NoDuplicates(calls)
    requires forall i :: 0 <= i < |calls| ==> !NodeAndFeatureInGraph(g, calls[i], CallFeature)
    ensures Disciplined(CallsPass(g, Some(calls)))
    decreases |calls|
  {
    if calls != [] {
      var n := |calls| - 1;
      var h := CallsPass(g, Some(calls[..n]));
      CallsPassKeeps(g, calls[..n]);
      CallsPassAppends(g, calls[..n]);
      forall j | 0 <= j < |h.nodes| ensures h.nodes[j] != NodeData(calls[n], CallFeature) {
        if j >= |g.nodes| {
          assert h.nodes[j] == NodeData(calls[j - |g.nodes|], CallFeature);
        } else {
          assert h.nodes[j] == g.nodes[j];
        }
      }
      CallStepKeeps(h, calls[n]);
    }
  }

  lemma ParametersPassKeeps(g: BuilderGraph, parameters: seq<TypedName>)
    requires Disciplined(g)
    ensures Disciplined(ParametersPass(g, parameters))
  {
    forall h: BuilderGraph, x: TypedName | Disciplined(h) ensures Disciplined(ParameterStep(h, x)) {
      ParameterStepKeeps(h, x);
    }
    FoldKeeps(g, parameters, ParameterStep, Disciplined);
  }

  lemma VariablesPassKeeps(g: BuilderGraph, variables: Option<seq<TypedName>>)
    requires Disciplined(g)
    ensures Disciplined(VariablesPass(g, variables))
  {
    if variables.Some? {
      forall h: BuilderGraph, x: TypedName | Disciplined(h) ensures Disciplined(VariableStep(h, x)) {
        VariableStepKeeps(h, x);
      }
      FoldKeeps(g, variables.value, VariableStep, Disciplined);
    }
  }

  lemma CastsPassKeeps(g: BuilderGraph, casts: Option<seq<Option<CastPair>>>)
    requires Disciplined(g)
    ensures Disciplined(CastsPass(g, casts))
  {
    if casts.Some? {
      forall h: BuilderGraph, x: Option<CastPair> | Disciplined(h) ensures Disciplined(CastStep(h, x)) {
        CastStepKeeps(h, x);
      }
      FoldKeeps(g, casts.value, CastStep, Disciplined);
    }
  }

  lemma CallVarDependencyPassKeeps(g: BuilderGraph, dependencies: Option<seq<CallVar>>)
    requires Disciplined(g)
    ensures Disciplined(CallVarDependencyPass(g, dependencies))
  {
    if dependencies.Some? {
      forall h: BuilderGraph, x: CallVar | Disciplined(h) ensures Disciplined(CallVarStep(h, x)) {
        CallVarStepKeeps(h, x);
      }
      FoldKeeps(g, dependencies.value, CallVarStep, Disciplined);
    }
  }

  lemma CallScopesPassKeeps(g: BuilderGraph, scopes: Option<seq<Option<CallScope>>>)
    requires Disciplined(g)
    ensures CallScopesPass(g, scopes).Success? ==> Disciplined(CallScopesPass(g, scopes).value)
  {
    if scopes.Some? {
      forall h: BuilderGraph, x: Option<CallScope> | Disciplined(h) && ScopeStep(h, x).Success?
        ensures Disciplined(ScopeStep(h, x).value)
      {
        ScopeStepKeeps(h, x);
      }
      TryFoldKeeps(g, scopes.value, ScopeStep, Disciplined);
    }
  }

  lemma CallArgumentsPassKeeps(g: BuilderGraph, args: Option<seq<CallArg>>)
    requires Disciplined(g)
    ensures CallArgumentsPass(g, args).Success? ==> Disciplined(CallArgumentsPass(g, args).value)
  {
    if args.Some? {
      forall h: BuilderGraph, x: CallArg | Disciplined(h) && ArgStep(h, x).Success?
        ensures Disciplined(ArgStep(h, x).value)
      {
        ArgStepKeeps(h, x);
      }
      TryFoldKeeps(g, args.value, ArgStep, Disciplined);
    }
  }

  lemma VarAssignsPassKeeps(g: BuilderGraph, assigns: Option<seq<VarAssign>>)
    requires Disciplined(g)
    ensures VarAssignsPass(g, assigns).Success? ==> Disciplined(VarAssignsPass(g, assigns).value)
  {
    if assigns.Some? {
      forall h: BuilderGraph, x: VarAssign | Disciplined(h) && AssignStep(h, x).Success?
        ensures Disciplined(AssignStep(h, x).value)
      {
        AssignStepKeeps(h, x);
      }
      TryFoldKeeps(g, assigns.value, AssignStep, Disciplined);
    }
  }

  // ---- lookups on a growing graph -----------------------------------------

  /** A lookup that found a node keeps finding the same node after appending:
      the first match stays first. */
  lemma FoundStaysFound(g: Graph, h: Graph, name: string, feature: string)
    requires Extends(g, h) && GetNodeWithFeature(g, name, feature).Some?
    ensures GetNodeWithFeature(h, name, feature) == GetNodeWithFeature(g, name, feature)
  {
    var i := GetNodeWithFeature(g, name, feature).value;
    var q := ByNameAndFeature(name, feature);
    assert h.nodes[i] == g.nodes[i];
    assert q.Matches(h.nodes[i]);
    forall j | 0 <= j < i ensures !q.Matches(h.nodes[j]) {
      assert h.nodes[j] == g.nodes[j];
    }
  }

  /** After `ReuseOrAdd` the lookup finds the node it returned. */
  lemma ReuseOrAddFinds(g: BuilderGraph, name: string, feature: string, relation: string)
    requires feature != MethodFeature
    ensures var r := ReuseOrAdd(g, name, feature, relation);
      GetNodeWithFeature(r.0, name, feature) == Some(r.1)
  {
    var r := ReuseOrAdd(g, name, feature, relation);
    if !NodeAndFeatureInGraph(g, name, feature) {
      assert r.0.nodes[|g.nodes|] == NodeData(name, feature);
      forall j | 0 <= j < |g.nodes| ensures r.0.nodes[j] != NodeData(name, feature) {
        assert r.0.nodes[j] == g.nodes[j];
      }
    }
  }

  // ---- variables: the first declaration wins --------------------------------

  /** After the variables pass every declared name has a "var" node. */
  lemma {:induction false} VariablesPassDeclares(g: BuilderGraph, variables: seq<TypedName>)
    ensures forall i :: 0 <= i < |variables| ==>
      NodeAndFeatureInGraph(VariablesPass(g, Some(variables)), variables[i].name, VarFeature)
    decreases |variables|
  {
    if variables != [] {
      var n := |variables| - 1;
      var h := VariablesPass(g, Some(variables[..n]));
      VariablesPassDeclares(g, variables[..n]);
      var h' := VariableStep(h, variables[n]);
      ExtendsKeepsLookups(h, h', Root, Root);
      if !NodeAndFeatureInGraph(h, variables[n].name, VarFeature) {
        assert h'.nodes[|h.nodes|] == NodeData(variables[n].name, VarFeature);
      }
      forall i | 0 <= i < |variables| ensures NodeAndFeatureInGraph(h', variables[i].name, VarFeature) {
        if i < n {
          assert variables[..n][i] == variables[i];
        }
      }
    }
  }

  /** A variable whose name was declared earlier in the list changes nothing:
      the pass ends as if the later declaration were not there. */
  lemma RedeclarationIgnored(g: BuilderGraph, variables: seq<TypedName>, v: TypedName)
    requires exists i :: 0 <= i < |variables| && variables[i].name == v.name
    ensures VariablesPass(g, Some(variables + [v])) == VariablesPass(g, Some(variables))
  {
    assert (variables + [v])[..|variables|] == variables;
    VariablesPassDeclares(g, variables);
  }

  // ---- uneven deduplication -------------------------------------------------

  /** Casts never deduplicate the "type" edge: the same cast twice ends with two
      identical var --type-> import edges. */
  lemma CastTypeEdgeRepeats(g: BuilderGraph, c: CastPair)
    ensures var h := CastsPass(g, Some([Some(c), Some(c)]));
      && |h.edges| >= |g.edges| + 2
      && h.edges[|h.edges| - 1] == h.edges[|h.edges| - 2]
      && h.edges[|h.edges| - 1].value == "type"
  {
    var x := Some(c);
    var h1 := CastStep(g, x);
    var h2 := CastStep(h1, x);
    CastStepTwice(g, c);
    assert [x, x][..1] == [x];
    assert [x][..0] == [];
    assert Fold(g, [x], CastStep) == h1;
    assert Fold(g, [x, x], CastStep) == h2;
  }

  /** The same cast applied twice in a row: the second adds exactly one edge,
      equal to the last edge the first added. */
  lemma CastStepTwice(g: BuilderGraph, c: CastPair)
    ensures var h1 := CastStep(g, Some(c));
      var h2 := CastStep(h1, Some(c));
      && |h2.edges| >= |g.edges| + 2
      && h2.edges[|h2.edges| - 1] == h2.edges[|h2.edges| - 2]
      && h2.edges[|h2.edges| - 1].value == "type"
  {
    var h1 := CastStep(g, Some(c));
    CastStepLinks(g, c);
    CastStepReuses(h1, c);
  }

  /** A fallible fold over two elements is two steps, the second taken only when
      the first succeeds. */
  lemma TryFoldPair<T>(g: BuilderGraph, x: T, y: T, step: (BuilderGraph, T) -> Result<BuilderGraph>)
    ensures step(g, x).Success? ==> TryFold(g, [x, y], step) == step(step(g, x).value, y)
  {
    assert [x, y][..1] == [x];
    assert [x][..0] == [];
    assert TryFold(g, [], step) == Success(g);
    assert TryFold(g, [x], step) == step(g, x);
  }

  /** After a cast, its "var" and "import" nodes exist and the last edge is the
      "type" edge between them. */
  lemma CastStepLinks(g: BuilderGraph, c: CastPair)
    ensures var h := CastStep(g, Some(c));
      && GetNodeWithFeature(h, c.expr, VarFeature).Some?
      && GetNodeWithFeature(h, c.typeName, ImportFeature).Some?
      && |h.edges| >= |g.edges| + 1
      && h.edges[|h.edges| - 1] == Edge("type", GetNodeWithFeature(h, c.expr, VarFeature).value,
                                        GetNodeWithFeature(h, c.typeName, ImportFeature).value)
  {
    var r1 := ReuseOrAdd(g, c.expr, VarFeature, "defines");
    ReuseOrAddFinds(g, c.expr, VarFeature, "defines");
    var r2 := ReuseOrAdd(r1.0, c.typeName, ImportFeature, "dependsOn");
    ReuseOrAddFinds(r1.0, c.typeName, ImportFeature, "dependsOn");
    var h := Link(r2.0, "type", r1.1, r2.1);
    assert CastStep(g, Some(c)) == h;
    FoundStaysFound(r1.0, h, c.expr, VarFeature);
    FoundStaysFound(r2.0, h, c.typeName, ImportFeature);
  }

  /** A cast whose "var" and "import" nodes both exist adds only the "type" edge
      between them. */
  lemma CastStepReuses(g: BuilderGraph, c: CastPair)
    requires GetNodeWithFeature(g, c.expr, VarFeature).Some?
    requires GetNodeWithFeature(g, c.typeName, ImportFeature).Some?
    ensures CastStep(g, Some(c)) == Graph(g.nodes, g.edges + [Edge("type", GetNodeWithFeature(g, c.expr, VarFeature).value,
                                                                    GetNodeWithFeature(g, c.typeName, ImportFeature).value)])
  {
  }

  /** Adding an "id" node for a name gives it no "param" or "var" node. */
  lemma IdKeepsUnresolved(g: Graph, h: Graph, x: string)
    requires h.nodes == g.nodes + [NodeData(x, IdFeature)]
    requires !NodeAndFeatureInGraph(g, x, ParamFeature) && !NodeAndFeatureInGraph(g, x, VarFeature)
    ensures !NodeAndFeatureInGraph(h, x, ParamFeature) && !NodeAndFeatureInGraph(h, x, VarFeature)
  {
    forall j | 0 <= j < |h.nodes|
      ensures h.nodes[j] != NodeData(x, ParamFeature) && h.nodes[j] != NodeData(x, VarFeature)
    {
      if j < |g.nodes| { assert h.nodes[j] == g.nodes[j]; }
    }
  }

  /** One argument naming something no "param" or "var" node carries, to a call
      with no "arg" edge towards an equal node yet: a new "id" node, and an "arg"
      edge from the call to it. */
  lemma ArgToFreshId(g: BuilderGraph, call: string, x: string)
    requires NodeAndFeatureInGraph(g, call, CallFeature)
    requires !NodeAndFeatureInGraph(g, x, ParamFeature) && !NodeAndFeatureInGraph(g, x, VarFeature)
    requires !NodeAndFeatureInGraph(g, x, IdFeature)
    ensures var ci := GetNodeWithFeature(g, call, CallFeature).value;
      ArgStep(g, CallArg(call, Reference(x, "var")))
        == Success(Graph(g.nodes + [NodeData(x, IdFeature)], g.edges + [Edge("arg", ci, |g.nodes|)]))
  {
    var ci := GetNodeWithFeature(g, call, CallFeature).value;
    var n := |g.nodes|;
    var idNode := NodeData(x, IdFeature);
    var g1 := AddNode(g, idNode);
    forall k | 0 <= k < |g1.edges| ensures g1.nodes[g1.edges[k].target] != idNode {
      assert EdgeFits(g.nodes, g.edges[k]);
      assert g1.nodes[g1.edges[k].target] == g.nodes[g.edges[k].target];
    }
    assert !EdgeNamedBetweenNodes(g1, ci, n, "arg");
    assert Resolve(g, Reference(x, "var")) == (g1, Some(n));
  }

  /** The same argument again, once the call has an "arg" edge to an equal "id"
      node: another "id" node, and no edge. */
  lemma ArgToRepeatedId(g: BuilderGraph, call: string, x: string, k: nat)
    requires NodeAndFeatureInGraph(g, call, CallFeature)
    requires !NodeAndFeatureInGraph(g, x, ParamFeature) && !NodeAndFeatureInGraph(g, x, VarFeature)
    requires k < |g.edges| && g.edges[k] == Edge("arg", GetNodeWithFeature(g, call, CallFeature).value, g.edges[k].target)
    requires g.nodes[g.edges[k].target] == NodeData(x, IdFeature)
    ensures ArgStep(g, CallArg(call, Reference(x, "var"))) == Success(AddNode(g, NodeData(x, IdFeature)))
  {
    var g1 := AddNode(g, NodeData(x, IdFeature));
    assert Resolve(g, Reference(x, "var")) == (g1, Some(|g.nodes|));
    assert g1.edges[k] == g.edges[k];
    assert EdgeNamedBetweenNodes(g1, GetNodeWithFeature(g, call, CallFeature).value, |g.nodes|, "arg");
  }

  /** An argument that no "param" or "var" node resolves becomes a new "id" node
      every time; only the first gets an "arg" edge, since the second "arg" edge
      is refused because its target equals the first one's: the same argument
      twice leaves two "id" nodes and one edge. */
  lemma ArgIdNodesRepeat(g: BuilderGraph, call: string, x: string)
    requires NodeAndFeatureInGraph(g, call, CallFeature)
    requires !NodeAndFeatureInGraph(g, x, ParamFeature) && !NodeAndFeatureInGraph(g, x, VarFeature)
    requires !NodeAndFeatureInGraph(g, x, IdFeature)
    ensures var a := CallArg(call, Reference(x, "var"));
      var ci := GetNodeWithFeature(g, call, CallFeature).value;
      CallArgumentsPass(g, Some([a, a]))
        == Success(Graph(g.nodes + [NodeData(x, IdFeature), NodeData(x, IdFeature)],
                         g.edges + [Edge("arg", ci, |g.nodes|)]))
  {
    var a := CallArg(call, Reference(x, "var"));
    var ci := GetNodeWithFeature(g, call, CallFeature).value;
    var n := |g.nodes|;
    var idNode := NodeData(x, IdFeature);
    ArgToFreshId(g, call, x);
    var h1: BuilderGraph := ArgStep(g, a).value;
    assert h1 == Graph(g.nodes + [idNode], g.edges + [Edge("arg", ci, n)]);
    FoundStaysFound(g, h1, call, CallFeature);
    IdKeepsUnresolved(g, h1, x);
    assert h1.edges[|g.edges|] == Edge("arg", ci, n);
    ArgToRepeatedId(h1, call, x, |g.edges|);
    var h2 := ArgStep(h1, a).value;
    assert h2.nodes == g.nodes + [idNode, idNode];
    TryFoldPair(g, a, a, ArgStep);
  }

  /** One assignment from a name no "param" or "var" node carries, to a declared
      variable: a new "id" node, and a "relatedTo" edge from the variable to it. */
  lemma AssignToFreshId(g: BuilderGraph, target: string, x: string)
    requires NodeAndFeatureInGraph(g, target, VarFeature)
    requires !NodeAndFeatureInGraph(g, x, ParamFeature) && !NodeAndFeatureInGraph(g, x, VarFeature)
    ensures var vi := GetNodeWithFeature(g, target, VarFeature).value;
      AssignStep(g, VarAssign(target, Reference(x, "var")))
        == Success(Graph(g.nodes + [NodeData(x, IdFeature)], g.edges + [Edge("relatedTo", vi, |g.nodes|)]))
  {
    var vi := GetNodeWithFeature(g, target, VarFeature).value;
    var n := |g.nodes|;
    var g1 := AddNode(g, NodeData(x, IdFeature));
    forall k | 0 <= k < |g.edges| ensures g.edges[k].target < n {
      assert EdgeFits(g.nodes, g.edges[k]);
    }
    assert !EdgeBetweenNodes(g1, vi, n);
    assert Resolve(g, Reference(x, "var")) == (g1, Some(n));
  }

  /** An unresolved assignment source also becomes a new "id" node every time,
      and since edges are tested between node objects, each new node gets its
      own "relatedTo" edge. */
  lemma AssignIdNodesRepeat(g: BuilderGraph, target: string, x: string)
    requires NodeAndFeatureInGraph(g, target, VarFeature)
    requires !NodeAndFeatureInGraph(g, x, ParamFeature) && !NodeAndFeatureInGraph(g, x, VarFeature)
    ensures var a := VarAssign(target, Reference(x, "var"));
      var vi := GetNodeWithFeature(g, target, VarFeature).value;
      VarAssignsPass(g, Some([a, a]))
        == Success(Graph(g.nodes + [NodeData(x, IdFeature), NodeData(x, IdFeature)],
                         g.edges + [Edge("relatedTo", vi, |g.nodes|), Edge("relatedTo", vi, |g.nodes| + 1)]))
  {
    var a := VarAssign(target, Reference(x, "var"));
    var vi := GetNodeWithFeature(g, target, VarFeature).value;
    var n := |g.nodes|;
    var idNode := NodeData(x, IdFeature);
    AssignToFreshId(g, target, x);
    var h1: BuilderGraph := AssignStep(g, a).value;
    assert h1 == Graph(g.nodes + [idNode], g.edges + [Edge("relatedTo", vi, n)]);
    FoundStaysFound(g, h1, target, VarFeature);
    IdKeepsUnresolved(g, h1, x);
    AssignToFreshId(h1, target, x);
    var h2 := AssignStep(h1, a).value;
    assert h2 == Graph(h1.nodes + [idNode], h1.edges + [Edge("relatedTo", vi, n + 1)]);
    assert h2.nodes == g.nodes + [idNode, idNode];
    assert h2.edges == g.edges + [Edge("relatedTo", vi, n), Edge("relatedTo", vi, n + 1)];
    assert [a, a][..1] == [a];
    assert [a][..0] == [];
    assert TryFold(g, [a], AssignStep) == Success(h1);
    assert TryFold(g, [a, a], AssignStep) == Success(h2);
  }

  // ---- self-loops the network refuses ---------------------------------------

  /** No edge of a builder's graph joins a node to itself. */
  lemma NoEdgeToItself(g: BuilderGraph, i: nat)
    ensures !EdgeBetweenNodes(g, i, i)
    ensures i < |g.nodes| ==> forall rel :: !EdgeNamedBetweenNodes(g, i, i, rel)
  {
    forall k | 0 <= k < |g.edges| ensures g.nodes[g.edges[k].source] != g.nodes[g.edges[k].target] {
      assert EdgeFits(g.nodes, g.edges[k]);
    }
  }

  /** A call whose scope token names the call itself, as the second call of
      `sb.append(a).append(b)` does, makes the network throw when the first
      non-root node with that label is the call node. */
  lemma ScopeSelfLoop(g: BuilderGraph, name: string)
    requires GetNode(g, name).Some? && g.nodes[GetNode(g, name).value].feature == CallFeature
    ensures ScopeStep(g, Some(CallScope(name, name))) == Failure(SelfLoop(name))
  {
    var si := GetNode(g, name).value;
    var ci := GetNodeWithFeature(g, name, CallFeature);
    assert ci.Some?;
    assert g.nodes[si] == NodeData(name, CallFeature);
    assert g.nodes[ci.value].name == name;
    NoEdgeToItself(g, si);
  }

  /** A call passed as an argument to a call of the same name, as in
      `foo(foo())`, makes the network throw. */
  lemma ArgSelfLoop(g: BuilderGraph, name: string)
    requires NodeAndFeatureInGraph(g, name, CallFeature)
    ensures ArgStep(g, CallArg(name, Reference(name, CallKind))) == Failure(SelfLoop(name))
  {
    NoEdgeToItself(g, GetNodeWithFeature(g, name, CallFeature).value);
  }

  /** A variable assigned to itself, as in `x = x;`, makes the network throw
      unless a parameter of that name is found first. */
  lemma AssignSelfLoop(g: BuilderGraph, x: string)
    requires NodeAndFeatureInGraph(g, x, VarFeature) && !NodeAndFeatureInGraph(g, x, ParamFeature)
    ensures AssignStep(g, VarAssign(x, Reference(x, "var"))) == Failure(SelfLoop(x))
  {
    NoEdgeToItself(g, GetNodeWithFeature(g, x, VarFeature).value);
  }

  // ---- checkRootRelations ----------------------------------------------------

  lemma {:induction false} ContainsFold(g: BuilderGraph, i: nat)
    requires i <= |g.nodes|
    ensures var h := Fold(g, Positions(i), ContainsStep);
      && h.nodes == g.nodes && g.edges <= h.edges
      && (forall k :: |g.edges| <= k < |h.edges| ==> h.edges[k].value == "contains" && h.edges[k].source == Root)
      && (forall j :: 0 < j < i ==> EdgeBetweenNodes(h, Root, j))
    decreases i
  {
    if i > 0 {
      assert Positions(i)[..i - 1] == Positions(i - 1);
      ContainsFold(g, i - 1);
      var h0 := Fold(g, Positions(i - 1), ContainsStep);
      var h := ContainsStep(h0, i - 1);
      ExtendsKeepsLookups(h0, h, Root, Root);
      forall j | 0 < j < i ensures EdgeBetweenNodes(h, Root, j) {
        ExtendsKeepsLookups(h0, h, Root, j);
        if j == i - 1 && !EdgeBetweenNodes(h0, Root, j) {
          assert h.edges[|h0.edges|] == Edge("contains", Root, j);
        }
      }
    }
  }

  /** The closing pass adds no node and only root --contains-> edges, keeps the
      invariants, never doubles a "contains" edge, and leaves every node other
      than the root a direct successor of the root. */
  lemma RootRelationsPassEffect(g: BuilderGraph)
    ensures var h := RootRelationsPass(g);
      && h.nodes == g.nodes
      && (forall k :: |g.edges| <= k < |h.edges| ==> h.edges[k].value == "contains" && h.edges[k].source == Root)
      && (forall j :: 0 < j < |h.nodes| ==> EdgeBetweenNodes(h, Root, j))
      && (LinkedOnce(g, "contains") ==> LinkedOnce(h, "contains"))
      && (Disciplined(g) ==> Disciplined(h))
  {
    ContainsFold(g, |g.nodes|);
    forall h: BuilderGraph, i: nat | LinkedOnce(h, "contains") ensures LinkedOnce(ContainsStep(h, i), "contains") {
      if i < |h.nodes| && h.nodes[i].feature != MethodFeature && !EdgeBetweenNodes(h, Root, i) {
        LinkKeepsLinkedOnce(h, "contains", Root, i, "contains");
      }
    }
    if LinkedOnce(g, "contains") {
      FoldKeeps(g, Positions(|g.nodes|), ContainsStep, h => LinkedOnce(h, "contains"));
    }
    forall h: BuilderGraph, i: nat | Disciplined(h) ensures Disciplined(ContainsStep(h, i)) {
      ContainsStepKeeps(h, i);
    }
    if Disciplined(g) {
      FoldKeeps(g, Positions(|g.nodes|), ContainsStep, Disciplined);
    }
  }

  // ---- no "call" node before the calls pass -----------------------------------

  predicate NoCallNodes(g: BuilderGraph)
  {
    forall i :: 0 <= i < |g.nodes| ==> g.nodes[i].feature != CallFeature
  }

  /** Only the calls pass creates "call" nodes: the four passes before it keep
      a graph free of them. */
  lemma EarlyPassesAddNoCalls(g: BuilderGraph, exceptions: seq<string>, parameters: seq<TypedName>,
                              variables: Option<seq<TypedName>>, casts: Option<seq<Option<CastPair>>>)
    requires NoCallNodes(g)
    ensures var g1 := ExceptionsPass(g, exceptions);
      var g2 := ParametersPass(g1, parameters);
      var g3 := VariablesPass(g2, variables);
      NoCallNodes(g1) && NoCallNodes(g2) && NoCallNodes(g3) && NoCallNodes(CastsPass(g3, casts))
  {
    forall h: BuilderGraph, x: string | NoCallNodes(h) ensures NoCallNodes(ExceptionStep(h, x)) {
      ExceptionStepAddsNoCalls(h, x);
    }
    FoldKeeps(g, exceptions, ExceptionStep, NoCallNodes);
    var g1 := ExceptionsPass(g, exceptions);
    forall h: BuilderGraph, x: TypedName | NoCallNodes(h) ensures NoCallNodes(ParameterStep(h, x)) {
      ParameterStepAddsNoCalls(h, x);
    }
    FoldKeeps(g1, parameters, ParameterStep, NoCallNodes);
    var g2 := ParametersPass(g1, parameters);
    forall h: BuilderGraph, x: TypedName | NoCallNodes(h) ensures NoCallNodes(VariableStep(h, x)) {
      VariableStepAddsNoCalls(h, x);
    }
    if variables.Some? {
      FoldKeeps(g2, variables.value, VariableStep, NoCallNodes);
    }
    var g3 := VariablesPass(g2, variables);
    forall h: BuilderGraph, x: Option<CastPair> | NoCallNodes(h) ensures NoCallNodes(CastStep(h, x)) {
      CastStepAddsNoCalls(h, x);
    }
    if casts.Some? {
      FoldKeeps(g3, casts.value, CastStep, NoCallNodes);
    }
  }

  /** An exception adds an "import" node only. */
  lemma ExceptionStepAddsNoCalls(g: BuilderGraph, e: string)
    requires NoCallNodes(g)
    ensures NoCallNodes(ExceptionStep(g, e))
  {
  }

  /** A parameter adds a "param" node and, at most, an "import" node. */
  lemma ParameterStepAddsNoCalls(g: BuilderGraph, p: TypedName)
    requires NoCallNodes(g)
    ensures NoCallNodes(ParameterStep(g, p))
  {
    var g1 := Link(AddNode(g, NodeData(p.name, ParamFeature)), "parameter", Root, |g.nodes|);
    AttachTypeAddsNoCalls(g1, |g.nodes|, p.typeName);
  }

  /** A variable adds, at most, a "var" node and an "import" node. */
  lemma VariableStepAddsNoCalls(g: BuilderGraph, v: TypedName)
    requires NoCallNodes(g)
    ensures NoCallNodes(VariableStep(g, v))
  {
    if !NodeAndFeatureInGraph(g, v.name, VarFeature) {
      AttachTypeAddsNoCalls(AddNode(g, NodeData(v.name, VarFeature)), |g.nodes|, v.typeName);
    }
  }

  /** A cast adds, at most, a "var" node and an "import" node. */
  lemma CastStepAddsNoCalls(g: BuilderGraph, c: Option<CastPair>)
    requires NoCallNodes(g)
    ensures NoCallNodes(CastStep(g, c))
  {
  }

  /** Attaching a type to a non-"import" node adds, at most, an "import" node. */
  lemma AttachTypeAddsNoCalls(g: BuilderGraph, v: nat, typeName: Option<string>)
    requires v < |g.nodes| && g.nodes[v].feature != ImportFeature && NoCallNodes(g)
    ensures NoCallNodes(AttachType(g, v, typeName))
  {
  }
}
