/** GraphBuilder: the object that owns one method's graph and grows it pass by
    pass. Each pass is a loop over its list that calls `AddNode` and `AddEdge` on
    the builder's node and edge lists, and is proved to leave exactly the graph
    that the matching function of module Passes describes. */
module Builder {
  import opened Wrappers
  import opened IdentifierNodes
  import opened Network
  import opened Passes

  class GraphBuilder {
    /** The network's nodes and edges, in insertion order. */
    var nodes: seq<NodeData>
    var edges: seq<Edge>

    predicate Valid()
      reads this
    {
      Network.Valid(Graph(nodes, edges))
    }

    function Model(): BuilderGraph
      reads this
      requires Valid()
    {
      Graph(nodes, edges)
    }

    /** The graph starts with the method node as its only node. */
    constructor (methodNode: IdentifierNode)
      requires methodNode.feature == MethodFeature
      ensures Valid()
      ensures Model() == NewGraph(methodNode.name)
    {
      nodes := [methodNode.Value()];
      edges := [];
    }

    /** `graph.addNode` of a new node object: it goes at the end. */
    method AddNode(n: NodeData) returns (i: nat)
      requires Valid() && n.feature != MethodFeature
      modifies this
      ensures Valid()
      ensures i == |old(nodes)| && Model() == Network.AddNode(old(Model()), n)
    {
      i := |nodes|;
      nodes := nodes + [n];
    }

    /** `graph.addEdge` of a new edge object; `ok` is false where the network
        throws because the two endpoints are equal nodes, and then nothing changes. */
    method AddEdge(value: string, source: nat, target: nat) returns (ok: bool)
      requires Valid() && source < |nodes| && target < |nodes|
      modifies this
      ensures Valid()
      ensures ok <==> TryLink(old(Model()), value, source, target).Success?
      ensures ok ==> Model() == TryLink(old(Model()), value, source, target).value
      ensures !ok ==> Model() == old(Model())
    {
      ok := nodes[source] != nodes[target];
      if ok {
        edges := edges + [Edge(value, source, target)];
      }
    }

    method SetExceptionNodes(exceptions: seq<string>)
      requires Valid()
      modifies this
      ensures Valid()
      ensures Model() == ExceptionsPass(old(Model()), exceptions)
    {
      ghost var g0 := Model();
      var i := 0;
      while i < |exceptions|
        invariant 0 <= i <= |exceptions|
        invariant Valid()
        invariant Model() == Fold(g0, exceptions[..i], ExceptionStep)
      {
        FoldNext(g0, exceptions, i, ExceptionStep);
        var n := AddNode(NodeData(exceptions[i], ImportFeature));
        var _ := AddEdge("dependsOn", Root, n);
        i := i + 1;
      }
      assert exceptions[..i] == exceptions;
    }

    /** The type handling of parameters and variables for the node at `v`. */
    method AttachTypeTo(v: nat, typeName: Option<string>)
      requires Valid() && v < |nodes| && nodes[v].feature != ImportFeature
      modifies this
      ensures Valid()
      ensures Model() == AttachType(old(Model()), v, typeName)
    {
      if typeName.Some? && !NodeAndFeatureInGraph(Model(), typeName.value, ImportFeature) {
        var t := AddNode(NodeData(typeName.value, ImportFeature));
        var _ := AddEdge("dependsOn", Root, t);
        var _ := AddEdge("type", v, t);
      } else if typeName.Some? && NodeAndFeatureInGraph(Model(), typeName.value, ImportFeature) {
        var found := GetNodeWithFeature(Model(), typeName.value, ImportFeature);
        if found.Some? {
          var _ := AddEdge("type", v, found.value);
        }
      }
    }

    /** One element of `setParameterNodes`. */
    method AddParameter(p: TypedName)
      requires Valid()
      modifies this
      ensures Valid()
      ensures Model() == ParameterStep(old(Model()), p)
    {
      var n := AddNode(NodeData(p.name, ParamFeature));
      var _ := AddEdge("parameter", Root, n);
      AttachTypeTo(n, p.typeName);
    }

    method SetParameterNodes(parameters: seq<TypedName>)
      requires Valid()
      modifies this
      ensures Valid()
      ensures Model() == ParametersPass(old(Model()), parameters)
    {
      ghost var g0 := Model();
      var i := 0;
      while i < |parameters|
        invariant 0 <= i <= |parameters|
        invariant Valid()
        invariant Model() == Fold(g0, parameters[..i], ParameterStep)
      {
        FoldNext(g0, parameters, i, ParameterStep);
        AddParameter(parameters[i]);
        i := i + 1;
      }
      assert parameters[..i] == parameters;
    }

    /** One element of `setVariableNodes`. */
    method AddVariable(v: TypedName)
      requires Valid()
      modifies this
      ensures Valid()
      ensures Model() == VariableStep(old(Model()), v)
    {
      if !NodeAndFeatureInGraph(Model(), v.name, VarFeature) {
        var n := AddNode(NodeData(v.name, VarFeature));
        AttachTypeTo(n, v.typeName);
        var _ := AddEdge("defines", Root, n);
      }
    }

    method SetVariableNodes(variables: Option<seq<TypedName>>)
      requires Valid()
      modifies this
      ensures Valid()
      ensures Model() == VariablesPass(old(Model()), variables)
    {
      if variables.None? {
        return;
      }
      var vs := variables.value;
      ghost var g0 := Model();
      var i := 0;
      while i < |vs|
        invariant 0 <= i <= |vs|
        invariant Valid()
        invariant Model() == Fold(g0, vs[..i], VariableStep)
      {
        FoldNext(g0, vs, i, VariableStep);
        AddVariable(vs[i]);
        i := i + 1;
      }
      assert vs[..i] == vs;
    }

    /** The node with this label and feature, or a new one linked from the root. */
    method ReuseOrAddNode(name: string, feature: string, relation: string) returns (n: nat)
      requires Valid() && feature != MethodFeature
      modifies this
      ensures Valid()
      ensures (Model(), n) == ReuseOrAdd(old(Model()), name, feature, relation)
    {
      var found := GetNodeWithFeature(Model(), name, feature);
      if found.Some? {
        n := found.value;
      } else {
        n := AddNode(NodeData(name, feature));
        var _ := AddEdge(relation, Root, n);
      }
    }

    /** One element of `setVariableCasts`. */
    method AddCast(c: Option<CastPair>)
      requires Valid()
      modifies this
      ensures Valid()
      ensures Model() == CastStep(old(Model()), c)
    {
      if c.Some? {
        var v := ReuseOrAddNode(c.value.expr, VarFeature, "defines");
        var t := ReuseOrAddNode(c.value.typeName, ImportFeature, "dependsOn");
        var _ := AddEdge("type", v, t);
      }
    }

    method SetVariableCasts(casts: Option<seq<Option<CastPair>>>)
      requires Valid()
      modifies this
      ensures Valid()
      ensures Model() == CastsPass(old(Model()), casts)
    {
      if casts.None? {
        return;
      }
      var cs := casts.value;
      ghost var g0 := Model();
      var i := 0;
      while i < |cs|
        invariant 0 <= i <= |cs|
        invariant Valid()
        invariant Model() == Fold(g0, cs[..i], CastStep)
      {
        FoldNext(g0, cs, i, CastStep);
        AddCast(cs[i]);
        i := i + 1;
      }
      assert cs[..i] == cs;
    }

    method SetCallNodes(calls: Option<seq<string>>)
      requires Valid()
      modifies this
      ensures Valid()
      ensures Model() == CallsPass(old(Model()), calls)
    {
      if calls.None? {
        return;
      }
      var cs := calls.value;
      ghost var g0 := Model();
      var i := 0;
      while i < |cs|
        invariant 0 <= i <= |cs|
        invariant Valid()
        invariant Model() == Fold(g0, cs[..i], CallStep)
      {
        FoldNext(g0, cs, i, CallStep);
        var _ := AddNode(NodeData(cs[i], CallFeature));
        i := i + 1;
      }
      assert cs[..i] == cs;
    }

    /** One element of `setCallNodesVarDependency`. */
    method AddCallVarDependency(d: CallVar)
      requires Valid()
      modifies this
      ensures Valid()
      ensures Model() == CallVarStep(old(Model()), d)
    {
      var call := GetNodeWithFeature(Model(), d.call, CallFeature);
      var variable := GetNodeWithFeature(Model(), d.variable, VarFeature);
      if call.Some? && variable.Some? {
        if !EdgeBetweenNodes(Model(), variable.value, call.value) {
          var _ := AddEdge("calls", variable.value, call.value);
        }
      }
    }

    method SetCallNodesVarDependency(dependencies: Option<seq<CallVar>>)
      requires Valid()
      modifies this
      ensures Valid()
      ensures Model() == CallVarDependencyPass(old(Model()), dependencies)
    {
      if dependencies.None? {
        return;
      }
      var ds := dependencies.value;
      ghost var g0 := Model();
      var i := 0;
      while i < |ds|
        invariant 0 <= i <= |ds|
        invariant Valid()
        invariant Model() == Fold(g0, ds[..i], CallVarStep)
      {
        FoldNext(g0, ds, i, CallVarStep);
        AddCallVarDependency(ds[i]);
        i := i + 1;
      }
      assert ds[..i] == ds;
    }

    /** One element of `setCallScopes`. */
    method AddScope(s: Option<CallScope>) returns (ok: bool)
      requires Valid()
      modifies this
      ensures Valid() && Extends(old(Model()), Model())
      ensures ok <==> ScopeStep(old(Model()), s).Success?
      ensures ok ==> Model() == ScopeStep(old(Model()), s).value
    {
      ok := true;
      if s.Some? {
        var call := GetNodeWithFeature(Model(), s.value.call, CallFeature);
        var scope := GetNode(Model(), s.value.scope);
        if call.Some? {
          if scope.Some? {
            if !EdgeBetweenNodes(Model(), scope.value, call.value) {
              ok := AddEdge("scope", scope.value, call.value);
            }
          } else {
            var n := AddNode(NodeData(s.value.scope, IdFeature));
            var _ := AddEdge("scope", n, call.value);
          }
        }
      }
    }

    method SetCallScopes(scopes: Option<seq<Option<CallScope>>>) returns (ok: bool)
      requires Valid()
      modifies this
      ensures Valid() && Extends(old(Model()), Model())
      ensures ok <==> CallScopesPass(old(Model()), scopes).Success?
      ensures ok ==> Model() == CallScopesPass(old(Model()), scopes).value
    {
      ok := true;
      if scopes.None? {
        return;
      }
      var ss := scopes.value;
      ghost var g0 := Model();
      var i := 0;
      while i < |ss|
        invariant 0 <= i <= |ss|
        invariant Valid() && Extends(g0, Model())
        invariant TryFold(g0, ss[..i], ScopeStep) == Success(Model())
      {
        TryFoldNext(g0, ss, i, ScopeStep);
        ok := AddScope(ss[i]);
        if !ok {
          TryFoldStopsAtFailure(g0, ss, i + 1, ScopeStep);
          return;
        }
        i := i + 1;
      }
      assert ss[..i] == ss;
    }

    /** Resolves an argument or an assignment source, adding an "id" node for a
        name of kind other than "call" that no "param" or "var" node carries. */
    method ResolveReference(ref: Reference) returns (r: Option<nat>)
      requires Valid()
      modifies this
      ensures Valid()
      ensures (Model(), r) == Resolve(old(Model()), ref)
    {
      if ref.kind == CallKind {
        r := GetNodeWithFeature(Model(), ref.name, CallFeature);
      } else {
        r := GetNodeWithFeature(Model(), ref.name, ParamFeature);
        if r.None? {
          r := GetNodeWithFeature(Model(), ref.name, VarFeature);
        }
      }
      if r.None? && ref.kind != CallKind {
        var n := AddNode(NodeData(ref.name, IdFeature));
        r := Some(n);
      }
    }

    /** One element of `setCallArguments`. */
    method AddArgument(a: CallArg) returns (ok: bool)
      requires Valid()
      modifies this
      ensures Valid() && Extends(old(Model()), Model())
      ensures ok <==> ArgStep(old(Model()), a).Success?
      ensures ok ==> Model() == ArgStep(old(Model()), a).value
    {
      ok := true;
      var call := GetNodeWithFeature(Model(), a.call, CallFeature);
      var arg := ResolveReference(a.arg);
      if call.Some? && arg.Some? {
        if !EdgeNamedBetweenNodes(Model(), call.value, arg.value, "arg") {
          ok := AddEdge("arg", call.value, arg.value);
        }
      }
    }

    method SetCallArguments(args: Option<seq<CallArg>>) returns (ok: bool)
      requires Valid()
      modifies this
      ensures Valid() && Extends(old(Model()), Model())
      ensures ok <==> CallArgumentsPass(old(Model()), args).Success?
      ensures ok ==> Model() == CallArgumentsPass(old(Model()), args).value
    {
      ok := true;
      if args.None? {
        return;
      }
      var xs := args.value;
      ghost var g0 := Model();
      var i := 0;
      while i < |xs|
        invariant 0 <= i <= |xs|
        invariant Valid() && Extends(g0, Model())
        invariant TryFold(g0, xs[..i], ArgStep) == Success(Model())
      {
        TryFoldNext(g0, xs, i, ArgStep);
        ok := AddArgument(xs[i]);
        if !ok {
          TryFoldStopsAtFailure(g0, xs, i + 1, ArgStep);
          return;
        }
        i := i + 1;
      }
      assert xs[..i] == xs;
    }

    /** One element of `setVarAssigns`. */
    method AddAssignment(a: VarAssign) returns (ok: bool)
      requires Valid()
      modifies this
      ensures Valid() && Extends(old(Model()), Model())
      ensures ok <==> AssignStep(old(Model()), a).Success?
      ensures ok ==> Model() == AssignStep(old(Model()), a).value
    {
      ok := true;
      var target := GetNodeWithFeature(Model(), a.target, VarFeature);
      var source := ResolveReference(a.source);
      if target.Some? && source.Some? {
        if !EdgeBetweenNodes(Model(), target.value, source.value) {
          ok := AddEdge("relatedTo", target.value, source.value);
        }
      }
    }

    method SetVarAssigns(assigns: Option<seq<VarAssign>>) returns (ok: bool)
      requires Valid()
      modifies this
      ensures Valid() && Extends(old(Model()), Model())
      ensures ok <==> VarAssignsPass(old(Model()), assigns).Success?
      ensures ok ==> Model() == VarAssignsPass(old(Model()), assigns).value
    {
      ok := true;
      if assigns.None? {
        return;
      }
      var xs := assigns.value;
      ghost var g0 := Model();
      var i := 0;
      while i < |xs|
        invariant 0 <= i <= |xs|
        invariant Valid() && Extends(g0, Model())
        invariant TryFold(g0, xs[..i], AssignStep) == Success(Model())
      {
        TryFoldNext(g0, xs, i, AssignStep);
        ok := AddAssignment(xs[i]);
        if !ok {
          TryFoldStopsAtFailure(g0, xs, i + 1, AssignStep);
          return;
        }
        i := i + 1;
      }
      assert xs[..i] == xs;
    }

    /** `checkRootRelations`: root --contains-> every non-root node that has no
        edge from the root yet. */
    method CheckRootRelations()
      requires Valid()
      modifies this
      ensures Valid()
      ensures Model() == RootRelationsPass(old(Model()))
    {
      ghost var g0 := Model();
      var n := |nodes|;
      ghost var ps := Positions(n);
      var i := 0;
      while i < n
        invariant 0 <= i <= n && |nodes| == n
        invariant Valid()
        invariant Model() == Fold(g0, ps[..i], ContainsStep)
      {
        FoldNext(g0, ps, i, ContainsStep);
        if nodes[i].feature != MethodFeature && !EdgeBetweenNodes(Model(), Root, i) {
          var _ := AddEdge("contains", Root, i);
        }
        i := i + 1;
      }
      assert ps[..i] == ps;
    }
  }

  /** One more element of a fold is one more step. */
  lemma FoldNext<T>(g: BuilderGraph, xs: seq<T>, i: nat, step: (BuilderGraph, T) -> BuilderGraph)
    requires i < |xs|
    ensures Fold(g, xs[..i + 1], step) == step(Fold(g, xs[..i], step), xs[i])
  {
    assert xs[..i + 1][..i] == xs[..i];
  }

  /** One more element of a fallible fold that has not thrown is one more step. */
  lemma TryFoldNext<T>(g: BuilderGraph, xs: seq<T>, i: nat, step: (BuilderGraph, T) -> Result<BuilderGraph>)
    requires i < |xs| && TryFold(g, xs[..i], step).Success?
    ensures TryFold(g, xs[..i + 1], step) == step(TryFold(g, xs[..i], step).value, xs[i])
  {
    assert xs[..i + 1][..i] == xs[..i];
  }

  /** Once a prefix of the list has thrown, the whole pass throws, with the same
      exception. */
  lemma {:induction false} TryFoldStopsAtFailure<T>(g: BuilderGraph, xs: seq<T>, n: nat, step: (BuilderGraph, T) -> Result<BuilderGraph>)
    requires n <= |xs|
    requires TryFold(g, xs[..n], step).Failure?
    ensures TryFold(g, xs, step) == TryFold(g, xs[..n], step)
    decreases |xs|
  {
    if n < |xs| {
      assert xs[..|xs| - 1][..n] == xs[..n];
      TryFoldStopsAtFailure(g, xs[..|xs| - 1], n, step);
    } else {
      assert xs[..n] == xs;
    }
  }
}
