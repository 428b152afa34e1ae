/** The directed multigraph a GraphBuilder owns, as a value: the nodes in insertion
    order and the edges in insertion order, each edge naming its endpoints by
    their position in the node list. Node identity is position, not value: the
    node class overrides `equals` without `hashCode`, so the network's hash maps
    key nodes by object, and two nodes with the same label and feature are two
    vertices. */
module Network {
  import opened Wrappers
  import opened IdentifierNodes

  datatype Edge = Edge(value: string, source: nat, target: nat)

  datatype Graph = Graph(nodes: seq<NodeData>, edges: seq<Edge>)

  /** The root's feature. */
  const MethodFeature := "method"

  /** Position of the root node. */
  const Root: nat := 0

  /** An edge joins two existing nodes that are not equal: the network refuses
      self-loops, and decides "self" with `equals`, i.e. by value. */
  predicate EdgeFits(nodes: seq<NodeData>, e: Edge)
  {
    e.source < |nodes| && e.target < |nodes| && nodes[e.source] != nodes[e.target]
  }

  /** What holds of a builder's graph at all times: the root comes first and is
      the only "method" node, and every edge fits. */
  predicate Valid(g: Graph)
  {
    && |g.nodes| > 0
    && g.nodes[Root].feature == MethodFeature
    && (forall i :: 0 < i < |g.nodes| ==> g.nodes[i].feature != MethodFeature)
    && (forall k :: 0 <= k < |g.edges| ==> EdgeFits(g.nodes, g.edges[k]))
  }

  type BuilderGraph = g: Graph | Valid(g) witness Graph([NodeData([], MethodFeature)], [])

  /** `h` is `g` with nodes and edges appended and nothing removed or changed. */
  predicate Extends(g: Graph, h: Graph)
  {
    g.nodes <= h.nodes && g.edges <= h.edges
  }

  /** Appending in two rounds is appending. */
  lemma ExtendsTransitive(a: Graph, b: Graph, c: Graph)
    requires Extends(a, b) && Extends(b, c)
    ensures Extends(a, c)
  {
  }

  /** The graph of a new builder: the root alone. */
  function NewGraph(methodName: string): (g: BuilderGraph)
    ensures |g.nodes| == 1 && |g.edges| == 0
    ensures g.nodes[Root] == NodeData(methodName, MethodFeature)
  {
    Graph([NodeData(methodName, MethodFeature)], [])
  }

  /** `addNode` of a new node object: it is appended at position |g.nodes|. */
  function AddNode(g: BuilderGraph, n: NodeData): (h: BuilderGraph)
    requires n.feature != MethodFeature
    ensures h.nodes == g.nodes + [n] && h.edges == g.edges
  {
    Graph(g.nodes + [n], g.edges)
  }

  /** `addEdge` of a new edge object between two unequal nodes: it is appended. */
  function Link(g: BuilderGraph, value: string, source: nat, target: nat): (h: BuilderGraph)
    requires source < |g.nodes| && target < |g.nodes| && g.nodes[source] != g.nodes[target]
    ensures h.nodes == g.nodes && h.edges == g.edges + [Edge(value, source, target)]
  {
    Graph(g.nodes, g.edges + [Edge(value, source, target)])
  }

  /** `addEdge` between any two nodes: equal endpoints make the network throw. */
  function TryLink(g: BuilderGraph, value: string, source: nat, target: nat): (r: Result<BuilderGraph>)
    requires source < |g.nodes| && target < |g.nodes|
    ensures r.Failure? <==> g.nodes[source] == g.nodes[target]
    ensures r.Failure? ==> r.error == SelfLoop(g.nodes[source].name)
    ensures r.Success? ==> r.value.nodes == g.nodes && r.value.edges == g.edges + [Edge(value, source, target)]
  {
    if g.nodes[source] == g.nodes[target] then Failure(SelfLoop(g.nodes[source].name))
    else Success(Link(g, value, source, target))
  }

  /** The node filters the lookups of the builder use. */
  datatype Query =
    | ByFeature(feature: string)
    | ByNameAndFeature(name: string, feature: string)
    | ByNameNotMethod(name: string)
  {
    predicate Matches(n: NodeData)
    {
      match this
      case ByFeature(f) => n.feature == f
      case ByNameAndFeature(l, f) => n.name == l && n.feature == f
      case ByNameNotMethod(l) => n.name == l && n.feature != MethodFeature
    }
  }

  /** The first node at or after `from` that the query accepts. */
  function FindFrom(nodes: seq<NodeData>, q: Query, from: nat): (r: Option<nat>)
    requires from <= |nodes|
    ensures r.Some? ==> from <= r.value < |nodes| && q.Matches(nodes[r.value])
    ensures r.Some? ==> forall j :: from <= j < r.value ==> !q.Matches(nodes[j])
    ensures r.None? ==> forall j :: from <= j < |nodes| ==> !q.Matches(nodes[j])
    decreases |nodes| - from
  {
    if from == |nodes| then None
    else if q.Matches(nodes[from]) then Some(from)
    else FindFrom(nodes, q, from + 1)
  }

  /** `findAny` over the nodes in insertion order: a sequential stream yields the
      first node the query accepts. */
  function Find(g: Graph, q: Query): (r: Option<nat>)
    ensures r.Some? ==> r.value < |g.nodes| && q.Matches(g.nodes[r.value])
    ensures r.Some? ==> forall j :: 0 <= j < r.value ==> !q.Matches(g.nodes[j])
    ensures r.None? <==> forall j :: 0 <= j < |g.nodes| ==> !q.Matches(g.nodes[j])
  {
    FindFrom(g.nodes, q, 0)
  }

  /** `getMethodNode`: the node whose feature is "method". */
  function GetMethodNode(g: Graph): (r: Option<nat>)
    ensures r.Some? ==> r.value < |g.nodes| && g.nodes[r.value].feature == MethodFeature
    ensures r.None? <==> forall j :: 0 <= j < |g.nodes| ==> g.nodes[j].feature != MethodFeature
  {
    Find(g, ByFeature(MethodFeature))
  }

  /** `nodeAndFeatureInGraph`: some node has this label and this feature. */
  predicate NodeAndFeatureInGraph(g: Graph, name: string, feature: string)
  {
    exists i :: 0 <= i < |g.nodes| && g.nodes[i] == NodeData(name, feature)
  }

  /** `getNodeWithFeature`: a node with this label and this feature, if any. */
  function GetNodeWithFeature(g: Graph, name: string, feature: string): (r: Option<nat>)
    ensures r.Some? ==> r.value < |g.nodes| && g.nodes[r.value] == NodeData(name, feature)
    ensures r.Some? ==> forall j :: 0 <= j < r.value ==> g.nodes[j] != NodeData(name, feature)
    ensures r.Some? <==> NodeAndFeatureInGraph(g, name, feature)
  {
    var r := Find(g, ByNameAndFeature(name, feature));
    assert r.Some? ==> g.nodes[r.value] == NodeData(name, feature) by {
      if r.Some? { assert ByNameAndFeature(name, feature).Matches(g.nodes[r.value]); }
    }
    assert NodeAndFeatureInGraph(g, name, feature) ==> r.Some? by {
      if NodeAndFeatureInGraph(g, name, feature) {
        var i :| 0 <= i < |g.nodes| && g.nodes[i] == NodeData(name, feature);
        assert ByNameAndFeature(name, feature).Matches(g.nodes[i]);
      }
    }
    r
  }

  /** `getNode`: a node with this label whatever its feature, the root excepted. */
  function GetNode(g: Graph, name: string): (r: Option<nat>)
    ensures r.Some? ==> r.value < |g.nodes| && g.nodes[r.value].name == name && g.nodes[r.value].feature != MethodFeature
    ensures r.Some? ==> forall j :: 0 <= j < r.value ==> g.nodes[j].name != name || g.nodes[j].feature == MethodFeature
    ensures r.None? <==> forall j :: 0 <= j < |g.nodes| ==> g.nodes[j].name != name || g.nodes[j].feature == MethodFeature
  {
    var r := Find(g, ByNameNotMethod(name));
    assert r.None? ==> forall j :: 0 <= j < |g.nodes| ==> g.nodes[j].name != name || g.nodes[j].feature == MethodFeature by {
      if r.None? {
        forall j | 0 <= j < |g.nodes| ensures g.nodes[j].name != name || g.nodes[j].feature == MethodFeature {
          assert !ByNameNotMethod(name).Matches(g.nodes[j]);
        }
      }
    }
    r
  }

  /** `edgeBetweenNodes`: some edge runs from `source` to `target`, whatever its
      relation. (The emptiness test counts edges through a hash multiset, so the
      target is compared by identity.) */
  predicate EdgeBetweenNodes(g: Graph, source: nat, target: nat)
  {
    exists k :: 0 <= k < |g.edges| && g.edges[k].source == source && g.edges[k].target == target
  }

  /** `edgeNamedBetweenNodes`: some edge named `relation` leaves `source` for a node
      equal to `target`. (The stream walks the out-edges of `source` and keeps
      those whose target `equals` the given node, so the target is compared by
      value.) */
  predicate EdgeNamedBetweenNodes(g: BuilderGraph, source: nat, target: nat, relation: string)
    requires target < |g.nodes|
  {
    exists k :: 0 <= k < |g.edges| && g.edges[k].source == source
      && g.nodes[g.edges[k].target] == g.nodes[target] && g.edges[k].value == relation
  }

  /** `hasIncidentEdge`: some edge enters or leaves the node. Nothing calls it. */
  predicate HasIncidentEdge(g: Graph, n: nat)
  {
    exists k :: 0 <= k < |g.edges| && (g.edges[k].source == n || g.edges[k].target == n)
  }

  /** However far a builder has got, `getMethodNode` finds the root it began with. */
  lemma MethodNodeIsRoot(g: BuilderGraph)
    ensures GetMethodNode(g) == Some(Root)
  {
  }

  /** Both ends of an edge found by `edgeBetweenNodes` have an incident edge. */
  lemma EdgeBetweenIsIncident(g: Graph, source: nat, target: nat)
    requires EdgeBetweenNodes(g, source, target)
    ensures HasIncidentEdge(g, source) && HasIncidentEdge(g, target)
  {
  }

  /** `anyMatch` with the label-and-feature filter holds exactly when
      `filter(...).findAny()` finds a node. */
  lemma AnyMatchIsFindAny(g: Graph, name: string, feature: string)
    ensures NodeAndFeatureInGraph(g, name, feature) <==> Find(g, ByNameAndFeature(name, feature)).Some?
  {
    assert GetNodeWithFeature(g, name, feature) == Find(g, ByNameAndFeature(name, feature));
  }

  /** Every edge is found by the lookups of its own endpoints: by
      `edgeBetweenNodes`, by `edgeNamedBetweenNodes` under its own relation, and
      by `hasIncidentEdge` at both ends. */
  lemma LookupsFindOwnEdge(g: BuilderGraph, k: nat)
    requires k < |g.edges|
    ensures var e := g.edges[k];
      && e.target < |g.nodes|
      && EdgeBetweenNodes(g, e.source, e.target)
      && EdgeNamedBetweenNodes(g, e.source, e.target, e.value)
      && HasIncidentEdge(g, e.source) && HasIncidentEdge(g, e.target)
  {
    assert EdgeFits(g.nodes, g.edges[k]);
  }

  /** `edgeNamedBetweenNodes` compares the target by value: it cannot tell two
      equal nodes apart. */
  lemma EdgeNamedComparesByValue(g: BuilderGraph, source: nat, t1: nat, t2: nat, relation: string)
    requires t1 < |g.nodes| && t2 < |g.nodes| && g.nodes[t1] == g.nodes[t2]
    ensures EdgeNamedBetweenNodes(g, source, t1, relation) <==> EdgeNamedBetweenNodes(g, source, t2, relation)
  {
  }

  /** `edgeBetweenNodes` compares by identity: an edge to one node is not an edge
      to another, equal node, while `edgeNamedBetweenNodes` finds it for both. */
  lemma LookupsDisagreeOnEqualNodes(g: BuilderGraph, k: nat, t2: nat)
    requires k < |g.edges| && t2 < |g.nodes| && t2 != g.edges[k].target
    requires g.edges[k].target < |g.nodes| && g.nodes[g.edges[k].target] == g.nodes[t2]
    requires forall j :: 0 <= j < |g.edges| ==> g.edges[j].target != t2
    ensures EdgeNamedBetweenNodes(g, g.edges[k].source, t2, g.edges[k].value)
    ensures !EdgeBetweenNodes(g, g.edges[k].source, t2)
  {
    LookupsFindOwnEdge(g, k);
    EdgeNamedComparesByValue(g, g.edges[k].source, g.edges[k].target, t2, g.edges[k].value);
  }

  /** The incident edges of a node are its out-edges and its in-edges. */
  lemma IncidentIsInOrOut(g: Graph, n: nat)
    ensures HasIncidentEdge(g, n) <==> exists m :: EdgeBetweenNodes(g, n, m) || EdgeBetweenNodes(g, m, n)
  {
    if HasIncidentEdge(g, n) {
      var k :| 0 <= k < |g.edges| && (g.edges[k].source == n || g.edges[k].target == n);
      if g.edges[k].source == n {
        assert EdgeBetweenNodes(g, n, g.edges[k].target);
      } else {
        assert EdgeBetweenNodes(g, g.edges[k].source, n);
      }
    }
  }

  /** Appending keeps what a graph satisfies on its old part: the old nodes stay
      where they were, and every edge found before is still found. */
  lemma ExtendsKeepsLookups(g: Graph, h: Graph, source: nat, target: nat)
    requires Extends(g, h)
    ensures EdgeBetweenNodes(g, source, target) ==> EdgeBetweenNodes(h, source, target)
    ensures forall name, feature :: NodeAndFeatureInGraph(g, name, feature) ==> NodeAndFeatureInGraph(h, name, feature)
  {
    if EdgeBetweenNodes(g, source, target) {
      var k :| 0 <= k < |g.edges| && g.edges[k].source == source && g.edges[k].target == target;
      assert h.edges[k] == g.edges[k];
    }
    forall name, feature | NodeAndFeatureInGraph(g, name, feature) ensures NodeAndFeatureInGraph(h, name, feature) {
      var i :| 0 <= i < |g.nodes| && g.nodes[i] == NodeData(name, feature);
      assert h.nodes[i] == g.nodes[i];
    }
  }
}
