/** The per-method half of the file parser: the list builders that turn a method
    declaration into the flat fact lists the graph builder consumes, and the
    constructor that runs the builder's passes over them in a fixed order.

    The syntax tree is not modelled. A method declaration is given as the
    results of the tree queries the list builders run: the thrown types, the
    parameters with the first simple name of their type, and, when there is a
    body, its variable declarators, casts, method calls and assignments, each
    list in the order the tree search meets them. */
module FileAstParser {
  import opened Wrappers
  import opened IdentifierNodes
  import opened Network
  import opened Passes
  import opened PassProperties
  import ScopeToken
  import opened Builder

  /** An expression, classified as the builders test it: a method call (by its
      name), a bare name (by its text), or anything else. */
  datatype Expr = MethodCall(name: string) | NameRef(text: string) | OtherExpr

  /** A variable declarator: its name, the first simple name of its type, and
      the names of the method calls inside it, in search order. */
  datatype Declarator = Declarator(name: string, typeName: Option<string>, calls: seq<string>)

  /** A cast: the text of the cast expression and the first simple name of the
      cast type, if it has one. */
  datatype Cast = Cast(exprText: string, typeName: Option<string>)

  /** A method call: its name, the source text of its scope if it has one, and
      its arguments. */
  datatype Call = Call(name: string, scopeText: Option<string>, args: seq<Expr>)

  datatype Assign = Assign(target: Expr, value: Expr)

  datatype Body = Body(declarators: seq<Declarator>, casts: seq<Cast>, calls: seq<Call>, assigns: seq<Assign>)

  datatype MethodDecl = MethodDecl(name: string, thrown: seq<string>, params: seq<TypedName>, body: Option<Body>)

  // ---- stream helpers -------------------------------------------------------

  /** `map` to an optional value, then `filter(Objects::nonNull)`. */
  function FilterMap<A, B(!new)>(xs: seq<A>, f: A -> Option<B>): (r: seq<B>)
    ensures |r| <= |xs|
    ensures forall y :: y in r <==> exists i :: 0 <= i < |xs| && f(xs[i]) == Some(y)
    decreases |xs|
  {
    if xs == [] then []
    else
      var init := xs[..|xs| - 1];
      var r := FilterMap(init, f);
      assert forall i :: 0 <= i < |init| ==> init[i] == xs[i];
      match f(xs[|xs| - 1])
      case Some(y) => r + [y]
      case None => r
  }

  /** Filtering keeps the order: the result for a concatenation is the
      concatenation of the results. */
  lemma {:induction false} FilterMapAppend<A, B(!new)>(xs: seq<A>, ys: seq<A>, f: A -> Option<B>)
    ensures FilterMap(xs + ys, f) == FilterMap(xs, f) + FilterMap(ys, f)
    decreases |ys|
  {
    if ys == [] {
      assert xs + ys == xs;
    } else {
      var ys' := ys[..|ys| - 1];
      assert (xs + ys)[..|xs + ys| - 1] == xs + ys';
      FilterMapAppend(xs, ys', f);
    }
  }

  /** Position of the first occurrence. */
  function FirstIndex<T(==)>(xs: seq<T>, x: T): (r: nat)
    requires x in xs
    ensures r < |xs| && xs[r] == x && forall j :: 0 <= j < r ==> xs[j] != x
    decreases |xs|
  {
    if xs[0] == x then 0 else 1 + FirstIndex(xs[1..], x)
  }

  /** A value met before the last element is first met at the same place
      without it. */
  lemma FirstIndexInPrefix<T>(xs: seq<T>, y: T)
    requires |xs| > 0 && y in xs[..|xs| - 1]
    ensures FirstIndex(xs, y) == FirstIndex(xs[..|xs| - 1], y)
  {
    var init := xs[..|xs| - 1];
    var k := FirstIndex(init, y);
    assert xs[k] == y;
    forall j | 0 <= j < k ensures xs[j] != y {
      assert xs[j] == init[j];
    }
  }

  /** `distinct()`: each value once, at the place of its first occurrence. */
  function Distinct<T(==,!new)>(xs: seq<T>): (r: seq<T>)
    ensures NoDuplicates(r)
    ensures forall x :: x in r <==> x in xs
    ensures forall i, j :: 0 <= i < j < |r| ==> FirstIndex(xs, r[i]) < FirstIndex(xs, r[j])
    decreases |xs|
  {
    if xs == [] then []
    else
      var init := xs[..|xs| - 1];
      var x := xs[|xs| - 1];
      var r := Distinct(init);
      forall y | y in init ensures FirstIndex(xs, y) == FirstIndex(init, y) {
        FirstIndexInPrefix(xs, y);
      }
      if x in r then r
      else
        assert x !in init;
        assert FirstIndex(xs, x) == |xs| - 1;
        r + [x]
  }

  // ---- the list builders ----------------------------------------------------

  /** `retrieveExceptions`: the thrown types, in declaration order. */
  function RetrieveExceptions(m: MethodDecl): (r: seq<string>)
    ensures r == m.thrown
  {
    m.thrown
  }

  /** `retrieveParameters`: each parameter with its type's first simple name,
      or none. */
  function RetrieveParameters(m: MethodDecl): (r: seq<TypedName>)
    ensures r == m.params
  {
    m.params
  }

  /** `retrieveVariables`: one entry per declarator of the body, with none for
      a body-less method. */
  function RetrieveVariables(m: MethodDecl): (r: Option<seq<TypedName>>)
    ensures r.None? <==> m.body.None?
    ensures r.Some? ==> |r.value| == |m.body.value.declarators|
    ensures r.Some? ==> forall i :: 0 <= i < |r.value| ==>
      r.value[i] == TypedName(m.body.value.declarators[i].name, m.body.value.declarators[i].typeName)
  {
    match m.body
    case None => None
    case Some(b) => Some(seq(|b.declarators|, i requires 0 <= i < |b.declarators| =>
                              TypedName(b.declarators[i].name, b.declarators[i].typeName)))
  }

  /** `retrieveCasts`: one entry per cast, null when the cast type has no
      simple name; none for a body-less method. */
  function RetrieveCasts(m: MethodDecl): (r: Option<seq<Option<CastPair>>>)
    ensures r.None? <==> m.body.None?
    ensures r.Some? ==> |r.value| == |m.body.value.casts|
    ensures r.Some? ==> forall i :: 0 <= i < |r.value| ==>
      (r.value[i].None? <==> m.body.value.casts[i].typeName.None?)
    ensures r.Some? ==> forall i :: 0 <= i < |r.value| && r.value[i].Some? ==>
      r.value[i].value == CastPair(m.body.value.casts[i].exprText, m.body.value.casts[i].typeName.value)
  {
    match m.body
    case None => None
    case Some(b) => Some(seq(|b.casts|, i requires 0 <= i < |b.casts| =>
                              match b.casts[i].typeName
                              case Some(t) => Some(CastPair(b.casts[i].exprText, t))
                              case None => None))
  }

  function CallNames(calls: seq<Call>): (r: seq<string>)
    ensures |r| == |calls| && forall i :: 0 <= i < |calls| ==> r[i] == calls[i].name
  {
    seq(|calls|, i requires 0 <= i < |calls| => calls[i].name)
  }

  /** `retrieveCalls`: the names of the body's calls, each once, in order of
      first occurrence; none for a body-less method. */
  function RetrieveCalls(m: MethodDecl): (r: Option<seq<string>>)
    ensures r.None? <==> m.body.None?
    ensures r.Some? ==> NoDuplicates(r.value)
    ensures r.Some? ==> forall c :: c in r.value <==> exists i :: 0 <= i < |m.body.value.calls| && m.body.value.calls[i].name == c
  {
    match m.body
    case None => None
    case Some(b) =>
      var names := CallNames(b.calls);
      assert forall c :: c in names <==> exists i :: 0 <= i < |b.calls| && b.calls[i].name == c by {
        forall c | c in names ensures exists i :: 0 <= i < |b.calls| && b.calls[i].name == c {
          var i :| 0 <= i < |names| && names[i] == c;
          assert b.calls[i].name == c;
        }
      }
      Some(Distinct(names))
  }

  /** A declarator's dependency: its first call, paired with its name. */
  function DependencyOf(d: Declarator): (r: Option<CallVar>)
    ensures r.Some? <==> d.calls != []
    ensures r.Some? ==> r.value.variable == d.name && r.value.call in d.calls
    ensures r.Some? ==> r.value.call == d.calls[0]
  {
    if d.calls == [] then None else Some(CallVar(d.calls[0], d.name))
  }

  /** `retrieveCallVarDependency`: (first call, declarator name) for every
      declarator holding a call, in order; none for a body-less method. */
  function RetrieveCallVarDependency(m: MethodDecl): (r: Option<seq<CallVar>>)
    ensures r.None? <==> m.body.None?
    ensures r.Some? ==> forall cv :: cv in r.value <==>
      exists i :: 0 <= i < |m.body.value.declarators| && m.body.value.declarators[i].calls != []
        && cv == CallVar(m.body.value.declarators[i].calls[0], m.body.value.declarators[i].name)
  {
    match m.body
    case None => None
    case Some(b) => Some(FilterMap(b.declarators, DependencyOf))
  }

  /** A call's scope entry: null without a scope, otherwise the call's name with
      its scope token; computing the token may throw. */
  function ScopeEntryOf(c: Call): (r: Result<Option<CallScope>>)
    ensures c.scopeText.None? ==> r == Success(None)
    ensures c.scopeText.Some? ==> (r.Success? <==> ScopeToken.ScopeTokenOf(c.scopeText.value).Success?)
    ensures r.Success? && c.scopeText.Some? ==>
      r.value == Some(CallScope(c.name, ScopeToken.ScopeTokenOf(c.scopeText.value).value))
  {
    match c.scopeText
    case None => Success(None)
    case Some(t) =>
      var token :- ScopeToken.ScopeTokenOf(t);
      Success(Some(CallScope(c.name, token)))
  }

  /** The scope entries of a list of calls, one per call, null entries kept;
      the first call whose token throws ends the list. */
  function ScopeEntries(calls: seq<Call>): (r: Result<seq<Option<CallScope>>>)
    ensures r.Success? <==> forall i :: 0 <= i < |calls| ==> ScopeEntryOf(calls[i]).Success?
    ensures r.Success? ==> |r.value| == |calls|
    ensures r.Success? ==> forall i :: 0 <= i < |calls| ==> r.value[i] == ScopeEntryOf(calls[i]).value
    decreases |calls|
  {
    if calls == [] then Success([])
    else
      var init := calls[..|calls| - 1];
      assert forall i :: 0 <= i < |init| ==> init[i] == calls[i];
      var entries :- ScopeEntries(init);
      var last :- ScopeEntryOf(calls[|calls| - 1]);
      Success(entries + [last])
  }

  /** `retrieveCallScopes`: a call with no scope gives a null entry rather than
      being left out; none for a body-less method. */
  function RetrieveCallScopes(m: MethodDecl): (r: Result<Option<seq<Option<CallScope>>>>)
    ensures r.Success? ==> (r.value.None? <==> m.body.None?)
    ensures m.body.Some? ==> (r.Success? <==> ScopeEntries(m.body.value.calls).Success?)
    ensures r.Success? && m.body.Some? ==> |r.value.value| == |m.body.value.calls|
    ensures r.Success? && m.body.Some? ==> forall i :: 0 <= i < |m.body.value.calls| ==>
      (r.value.value[i].None? <==> m.body.value.calls[i].scopeText.None?)
  {
    match m.body
    case None => Success(None)
    case Some(b) =>
      var entries :- ScopeEntries(b.calls);
      Success(Some(entries))
  }

  /** The expression a reference was read from: a method call for kind "call",
      a bare name otherwise. */
  function ExprOf(ref: Reference): Expr
  {
    if ref.kind == CallKind then MethodCall(ref.name) else NameRef(ref.name)
  }

  /** An argument of the call named `call`: a method call is a "call"
      reference, a bare name a "var" reference, anything else is dropped. The
      pair names the call and loses nothing of the argument. */
  function ArgOf(call: string, e: Expr): (r: Option<CallArg>)
    ensures r.None? <==> e.OtherExpr?
    ensures r.Some? ==> r.value.call == call && r.value.arg.kind in [CallKind, "var"]
    ensures r.Some? ==> ExprOf(r.value.arg) == e
  {
    match e
    case MethodCall(n) => Some(CallArg(call, Reference(n, CallKind)))
    case NameRef(t) => Some(CallArg(call, Reference(t, "var")))
    case OtherExpr => None
  }

  /** `flatMap` of the arguments of each call, in call order. */
  function CallArgs(calls: seq<Call>): (r: seq<CallArg>)
    ensures forall a :: a in r <==>
      exists i, j :: 0 <= i < |calls| && 0 <= j < |calls[i].args| && ArgOf(calls[i].name, calls[i].args[j]) == Some(a)
    decreases |calls|
  {
    if calls == [] then []
    else
      var init := calls[..|calls| - 1];
      var c := calls[|calls| - 1];
      assert forall i :: 0 <= i < |init| ==> init[i] == calls[i];
      CallArgs(init) + FilterMap(c.args, e => ArgOf(c.name, e))
  }

  /** `retrieveCallArgs`; none for a body-less method. */
  function RetrieveCallArgs(m: MethodDecl): (r: Option<seq<CallArg>>)
    ensures r.None? <==> m.body.None?
    ensures r.Some? ==> forall a :: a in r.value ==> a.arg.kind in [CallKind, "var"]
    ensures r.Some? ==> forall a :: a in r.value <==>
      exists i, j :: 0 <= i < |m.body.value.calls| && 0 <= j < |m.body.value.calls[i].args|
        && ArgOf(m.body.value.calls[i].name, m.body.value.calls[i].args[j]) == Some(a)
  {
    match m.body
    case None => None
    case Some(b) => Some(CallArgs(b.calls))
  }

  /** An assignment to a bare name from a call or from a bare name; any other
      assignment is dropped. The pair loses nothing of the assignment. */
  function AssignOf(a: Assign): (r: Option<VarAssign>)
    ensures r.Some? <==> a.target.NameRef? && !a.value.OtherExpr?
    ensures r.Some? ==> NameRef(r.value.target) == a.target
    ensures r.Some? ==> r.value.source.kind in [CallKind, "var"] && ExprOf(r.value.source) == a.value
  {
    match (a.target, a.value)
    case (NameRef(t), MethodCall(n)) => Some(VarAssign(t, Reference(n, CallKind)))
    case (NameRef(t), NameRef(v)) => Some(VarAssign(t, Reference(v, "var")))
    case _ => None
  }

  /** `retrieveVarAssigns`; none for a body-less method. */
  function RetrieveVarAssigns(m: MethodDecl): (r: Option<seq<VarAssign>>)
    ensures r.None? <==> m.body.None?
    ensures r.Some? ==> forall va :: va in r.value <==>
      exists i :: 0 <= i < |m.body.value.assigns| && AssignOf(m.body.value.assigns[i]) == Some(va)
  {
    match m.body
    case None => None
    case Some(b) => Some(FilterMap(b.assigns, AssignOf))
  }

  // ---- the Method constructor ----------------------------------------------

  /** The graph after the root and the six passes that cannot throw. */
  function DeclarationGraph(m: MethodDecl): (g: BuilderGraph)
    ensures Extends(NewGraph(m.name), g)
  {
    var g0 := NewGraph(m.name);
    var g1 := ExceptionsPass(g0, RetrieveExceptions(m));
    var g2 := ParametersPass(g1, RetrieveParameters(m));
    var g3 := VariablesPass(g2, RetrieveVariables(m));
    var g4 := CastsPass(g3, RetrieveCasts(m));
    var g5 := CallsPass(g4, RetrieveCalls(m));
    CallVarDependencyPass(g5, RetrieveCallVarDependency(m))
  }

  /** The graph of one method: the root, then the nine passes in order. The
      closing `checkRootRelations` pass is not part of it. A pass or a scope
      token that throws leaves no graph. */
  function MethodGraph(m: MethodDecl): (r: Result<BuilderGraph>)
    ensures r.Success? ==> Extends(DeclarationGraph(m), r.value)
    ensures r.Success? ==> Extends(NewGraph(m.name), r.value)
  {
    var g6 := DeclarationGraph(m);
    var scopes :- RetrieveCallScopes(m);
    var g7 :- CallScopesPass(g6, scopes);
    var g8 :- CallArgumentsPass(g7, RetrieveCallArgs(m));
    var g9 :- VarAssignsPass(g8, RetrieveVarAssigns(m));
    ExtendsTransitive(g6, g7, g8);
    ExtendsTransitive(g6, g8, g9);
    ExtendsTransitive(NewGraph(m.name), g6, g9);
    Success(g9)
  }

  /** The `Method` constructor: a root node for the method, a builder over it,
      and the passes in order, each fed by its list builder. `ok` is false when
      a step threw; the builder then holds whatever the passes had added. */
  method BuildMethodGraph(m: MethodDecl) returns (b: GraphBuilder, ok: bool)
    ensures fresh(b) && b.Valid()
    ensures ok <==> MethodGraph(m).Success?
    ensures ok ==> b.Model() == MethodGraph(m).value
  {
    var root := new IdentifierNode(m.name, MethodFeature);
    b := new GraphBuilder(root);
    b.SetExceptionNodes(RetrieveExceptions(m));
    b.SetParameterNodes(RetrieveParameters(m));
    b.SetVariableNodes(RetrieveVariables(m));
    b.SetVariableCasts(RetrieveCasts(m));
    b.SetCallNodes(RetrieveCalls(m));
    b.SetCallNodesVarDependency(RetrieveCallVarDependency(m));
    var scopes := RetrieveCallScopes(m);
    if scopes.Failure? {
      ok := false;
      return;
    }
    ok := b.SetCallScopes(scopes.value);
    if !ok {
      return;
    }
    ok := b.SetCallArguments(RetrieveCallArgs(m));
    if !ok {
      return;
    }
    ok := b.SetVarAssigns(RetrieveVarAssigns(m));
  }

  // ---- what the finished graph satisfies ---------------------------------------

  /** The method node a builder starts from stays the one "method" node, with
      the method's name, at the front. */
  lemma MethodGraphRoot(m: MethodDecl)
    ensures MethodGraph(m).Success? ==>
      MethodGraph(m).value.nodes[Root] == NodeData(m.name, MethodFeature)
      && GetMethodNode(MethodGraph(m).value) == Some(Root)
  {
    if MethodGraph(m).Success? {
      MethodNodeIsRoot(MethodGraph(m).value);
    }
  }

  /** When the method throws no type twice, the finished graph has one "var",
      one "call" and one "import" node per name, and no "calls", "scope",
      "relatedTo" or "arg" edge doubled. */
  lemma MethodGraphDisciplined(m: MethodDecl)
    requires NoDuplicates(m.thrown)
    ensures MethodGraph(m).Success? ==> Disciplined(MethodGraph(m).value)
  {
    DeclarationGraphDisciplined(m);
    var g6 := DeclarationGraph(m);
    var scopes := RetrieveCallScopes(m);
    if scopes.Success? {
      CallScopesPassKeeps(g6, scopes.value);
      var g7 := CallScopesPass(g6, scopes.value);
      if g7.Success? {
        CallArgumentsPassKeeps(g7.value, RetrieveCallArgs(m));
        var g8 := CallArgumentsPass(g7.value, RetrieveCallArgs(m));
        if g8.Success? {
          VarAssignsPassKeeps(g8.value, RetrieveVarAssigns(m));
        }
      }
    }
  }

  /** The six passes that cannot throw keep the invariant, given no type thrown
      twice. */
  lemma DeclarationGraphDisciplined(m: MethodDecl)
    requires NoDuplicates(m.thrown)
    ensures Disciplined(DeclarationGraph(m))
  {
    var g0 := NewGraph(m.name);
    var g1 := ExceptionsPass(g0, RetrieveExceptions(m));
    ExceptionsPassKeeps(g0, m.thrown);
    var g2 := ParametersPass(g1, RetrieveParameters(m));
    ParametersPassKeeps(g1, m.params);
    var g3 := VariablesPass(g2, RetrieveVariables(m));
    VariablesPassKeeps(g2, RetrieveVariables(m));
    var g4 := CastsPass(g3, RetrieveCasts(m));
    CastsPassKeeps(g3, RetrieveCasts(m));
    EarlyPassesAddNoCalls(g0, m.thrown, m.params, RetrieveVariables(m), RetrieveCasts(m));
    var g5 := CallsPass(g4, RetrieveCalls(m));
    if RetrieveCalls(m).Some? {
      CallsPassKeeps(g4, RetrieveCalls(m).value);
    }
    CallVarDependencyPassKeeps(g5, RetrieveCallVarDependency(m));
  }

  /** Every variable the body declares has a "var" node and every call the body
      makes has a "call" node in the finished graph. */
  lemma MethodGraphDeclares(m: MethodDecl)
    requires m.body.Some?
    ensures MethodGraph(m).Success? ==>
      (forall i :: 0 <= i < |m.body.value.declarators| ==>
        NodeAndFeatureInGraph(MethodGraph(m).value, m.body.value.declarators[i].name, VarFeature))
      && (forall i :: 0 <= i < |m.body.value.calls| ==>
        NodeAndFeatureInGraph(MethodGraph(m).value, m.body.value.calls[i].name, CallFeature))
  {
    DeclarationGraphDeclares(m);
    if MethodGraph(m).Success? {
      ExtendsKeepsLookups(DeclarationGraph(m), MethodGraph(m).value, Root, Root);
    }
  }

  /** The same, already after the six passes that cannot throw. */
  lemma DeclarationGraphDeclares(m: MethodDecl)
    requires m.body.Some?
    ensures forall i :: 0 <= i < |m.body.value.declarators| ==>
      NodeAndFeatureInGraph(DeclarationGraph(m), m.body.value.declarators[i].name, VarFeature)
    ensures forall i :: 0 <= i < |m.body.value.calls| ==>
      NodeAndFeatureInGraph(DeclarationGraph(m), m.body.value.calls[i].name, CallFeature)
  {
    var b := m.body.value;
    var g0 := NewGraph(m.name);
    var g1 := ExceptionsPass(g0, RetrieveExceptions(m));
    var g2 := ParametersPass(g1, RetrieveParameters(m));
    var vs := RetrieveVariables(m).value;
    var g3 := VariablesPass(g2, Some(vs));
    VariablesPassDeclares(g2, vs);
    var g4 := CastsPass(g3, RetrieveCasts(m));
    var calls := RetrieveCalls(m).value;
    var g5 := CallsPass(g4, Some(calls));
    CallsPassAppends(g4, calls);
    var h := DeclarationGraph(m);
    assert h == CallVarDependencyPass(g5, RetrieveCallVarDependency(m));
    ExtendsKeepsLookups(g3, h, Root, Root);
    ExtendsKeepsLookups(g5, h, Root, Root);
    forall i | 0 <= i < |b.declarators| ensures NodeAndFeatureInGraph(h, b.declarators[i].name, VarFeature) {
      assert vs[i].name == b.declarators[i].name;
    }
    forall i | 0 <= i < |b.calls| ensures NodeAndFeatureInGraph(h, b.calls[i].name, CallFeature) {
      var c := b.calls[i].name;
      assert c in calls;
      var k :| 0 <= k < |calls| && calls[k] == c;
      assert g5.nodes[|g4.nodes| + k] == NodeData(c, CallFeature);
    }
  }

  /** The lists of a method with no throws, no parameters and a body holding
      one call and nothing else. */
  lemma SingleCallLists(methodName: string, c: Call)
    ensures var m := MethodDecl(methodName, [], [], Some(Body([], [], [c], [])));
      && RetrieveVariables(m) == Some([]) && RetrieveCasts(m) == Some([])
      && RetrieveCalls(m) == Some([c.name]) && RetrieveCallVarDependency(m) == Some([])
      && (ScopeEntryOf(c).Success? ==> RetrieveCallScopes(m) == Success(Some([ScopeEntryOf(c).value])))
  {
    assert [c.name][..0] == [];
    assert CallNames([c]) == [c.name];
    assert Distinct([c.name]) == [c.name];
    assert [c][..0] == [];
    if ScopeEntryOf(c).Success? {
      var r := ScopeEntries([c]);
      assert [c][0] == c;
      assert r.Success?;
      assert r.value[0] == ScopeEntryOf(c).value;
      assert r.value == [ScopeEntryOf(c).value];
    }
  }

  /** The graph of such a method before its scopes: the root and the call. */
  lemma SingleCallGraph(methodName: string, name: string)
    ensures var g0 := NewGraph(methodName);
      CallVarDependencyPass(CallsPass(CastsPass(VariablesPass(ParametersPass(ExceptionsPass(g0, []), []), Some([])), Some([])), Some([name])), Some([]))
        == AddNode(g0, NodeData(name, CallFeature))
  {
    var g0 := NewGraph(methodName);
    assert [name][..0] == [];
    assert Fold(g0, [name], CallStep) == CallStep(g0, name);
  }

  /** The lists of a method with no throws and no parameters whose body holds
      two calls of one name and nothing else: the name is listed once. */
  lemma TwoCallLists(methodName: string, outer: Call, inner: Call)
    requires outer.name == inner.name
    ensures var m := MethodDecl(methodName, [], [], Some(Body([], [], [outer, inner], [])));
      && RetrieveVariables(m) == Some([]) && RetrieveCasts(m) == Some([])
      && RetrieveCalls(m) == Some([outer.name]) && RetrieveCallVarDependency(m) == Some([])
  {
    assert CallNames([outer, inner]) == [outer.name, outer.name];
    DistinctTwice(outer.name);
  }

  /** `distinct()` of a name twice is the name once. */
  lemma DistinctTwice(n: string)
    ensures Distinct([n, n]) == [n]
  {
    assert [n, n][..1] == [n];
    assert [n][..0] == [];
    assert Distinct([n]) == [n];
  }

  /** Such a method's graph before its scopes: the root and one "call" node. */
  lemma TwoCallDeclarationGraph(methodName: string, outer: Call, inner: Call)
    requires outer.name == inner.name
    ensures var m := MethodDecl(methodName, [], [], Some(Body([], [], [outer, inner], [])));
      DeclarationGraph(m) == AddNode(NewGraph(methodName), NodeData(outer.name, CallFeature))
  {
    TwoCallLists(methodName, outer, inner);
    SingleCallGraph(methodName, outer.name);
  }

  /** Such a method's scope entries: one per call, in order. */
  lemma TwoCallScopes(methodName: string, outer: Call, inner: Call)
    requires ScopeEntryOf(outer).Success? && ScopeEntryOf(inner).Success?
    ensures var m := MethodDecl(methodName, [], [], Some(Body([], [], [outer, inner], [])));
      RetrieveCallScopes(m) == Success(Some([ScopeEntryOf(outer).value, ScopeEntryOf(inner).value]))
  {
    var r := ScopeEntries([outer, inner]);
    assert [outer, inner][0] == outer && [outer, inner][1] == inner;
    assert r.Success?;
    assert r.value == [ScopeEntryOf(outer).value, ScopeEntryOf(inner).value];
  }

  /** Over the root and one "call" node, a scopes pass whose first entry gives
      that call its own name as scope throws, whatever follows. */
  lemma SelfScopeFirstAborts(methodName: string, name: string, rest: Option<CallScope>)
    requires name != []
    ensures var g := AddNode(NewGraph(methodName), NodeData(name, CallFeature));
      CallScopesPass(g, Some([Some(CallScope(name, name)), rest])) == Failure(SelfLoop(name))
  {
    var g := AddNode(NewGraph(methodName), NodeData(name, CallFeature));
    assert GetNode(g, name) == Some(1) by {
      assert g.nodes[0].feature == MethodFeature;
      assert g.nodes[1] == NodeData(name, CallFeature);
    }
    PassProperties.ScopeSelfLoop(g, name);
    var x := Some(CallScope(name, name));
    var xs := [x, rest];
    assert xs[..1] == [x];
    assert [x][..0] == [];
    assert TryFold(g, xs[..1], ScopeStep) == Failure(SelfLoop(name));
    TryFoldStopsAtFailure(g, xs, 1, ScopeStep);
  }

  /** A method whose body is the chained call `receiver.name(a).name(b)` gets no
      graph. The call search meets the outer call, whose scope is the inner call
      `receiver.name(a)`, then the inner call, whose scope is `receiver`. The
      outer call's scope token is its own name, the scope lookup finds the one
      "call" node of that name, and the network refuses the self-loop. */
  lemma ChainedCallAborts(methodName: string, receiver: string, name: string, a: string, b: string)
    requires '.' !in receiver && '(' !in receiver
    requires name != [] && '.' !in name && '(' !in name
    requires forall i :: 0 <= i < |a| ==> a[i] != ')' && !ScopeToken.IsLineTerminator(a[i])
    ensures var outer := Call(name, Some(receiver + ['.'] + name + ['('] + a + [')']), [NameRef(b)]);
      var inner := Call(name, Some(receiver), [NameRef(a)]);
      var m := MethodDecl(methodName, [], [], Some(Body([], [], [outer, inner], [])));
      MethodGraph(m) == Failure(SelfLoop(name))
  {
    var outer := Call(name, Some(receiver + ['.'] + name + ['('] + a + [')']), [NameRef(b)]);
    var inner := Call(name, Some(receiver), [NameRef(a)]);
    ScopeToken.ChainedCallToken(receiver, name, a);
    ScopeToken.PlainToken(receiver);
    var y := Some(CallScope(name, receiver));
    assert ScopeEntryOf(outer) == Success(Some(CallScope(name, name)));
    assert ScopeEntryOf(inner) == Success(y);
    TwoCallDeclarationGraph(methodName, outer, inner);
    TwoCallScopes(methodName, outer, inner);
    SelfScopeFirstAborts(methodName, name, y);
  }
}
