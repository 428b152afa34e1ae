# java-ast-to-concept-graphs: the per-method concept graph, in Dafny

The Java tool reads a source file and builds one graph per method
declaration. The graph's nodes are the identifiers the method mentions. Each
node has a label (the identifier's text) and a feature: its role, one of
"method", "param", "import", "var", "call" or "id". The edges are directed and
labelled with a relation: "dependsOn", "parameter", "type", "defines",
"calls", "scope", "arg", "relatedTo" or "contains".

A `GraphBuilder` owns the graph. It starts from the method node alone and
grows the graph through nine passes. `FileASTParser.Method` extracts a flat
list from the method's syntax tree for each pass, then runs the passes in a
fixed order.

This project models that core:

- `wrappers.dfy` (`Wrappers`): `Option`, and a `Result` whose failure is one
  of the two Java exceptions the pipeline can raise.
  - `SelfLoop` is the network refusing an edge whose two endpoints are equal
    nodes.
  - `EmptySplit` is `get(-1)` on an empty split.
- `relation_enum.dfy`, `node_type_enum.dfy`: the two enums and their codes.
- `identifier_node.dfy`, `identifier_relation_edge.dfy`: the node and edge
  classes, with their value equality, setters and renderings.
- `network.dfy` (`Network`): the graph as a value, plus the lookups of
  `GraphBuilder`.
  - Nodes and edges are kept in insertion order.
  - An edge names its endpoints by their position.
  - Node identity is position, not value. `IdentifierNode` overrides `equals`
    without `hashCode`, so the network's hash maps key nodes by object.
  - The network is directed, allows parallel edges and refuses self-loops.
    It decides "self" with `equals`, so two distinct nodes with the same
    label and feature cannot be joined.
- `passes.dfy` (`Passes`): each pass of the builder as a function.
  - A pass is a fold of a per-element step over its list.
  - A list the source lets be null is an `Option`.
  - A pass that can raise the self-loop exception returns a `Result`, and
    the first failing element ends it.
- `graph_builder.dfy` (`Builder`): class `GraphBuilder`, with its node and
  edge lists as fields. Each pass is a method with a loop, proved to leave
  exactly the graph the matching function of `Passes` describes.
- `pass_properties.dfy` (`PassProperties`): what the passes keep and add.
  - The invariant `Disciplined`:
    - a label appears at most once as a "var", a "call" or an "import" node;
    - "calls", "scope" and "relatedTo" never join two nodes already joined;
    - "arg" never repeats towards an equal node.
  - The closed form of the exceptions and calls passes.
  - Lookups that stay stable as the graph grows.
  - Where the deduplication is uneven: repeated "id" nodes, repeated cast
    "type" edges, and the inputs that make a step throw.
- `scope_token.dfy` (`ScopeToken`): the scope normalisation
  `replaceAll("\\(.*?\\)", "").split("\\.")` followed by taking the last
  piece. It is given as Java's regular-expression and split semantics, with a
  simpler reference reading proved equal to it.
- `file_ast_parser.dfy` (`FileAstParser`): the list builders
  `retrieve*`, and the pipeline of the `Method` constructor.
  - The syntax tree is not modelled: a method is the results of the tree
    queries the builders make, each list in search order.
  - `MethodGraph` is the pipeline as a function, and `BuildMethodGraph`
    drives a `GraphBuilder` through it.

Behaviour of the source that the model keeps, and that a reader may not
expect:

- The pipeline throws on ordinary code.
  - `ChainedCallAborts` shows that `sb.append(a).append(b)` aborts. The call
    search yields the outer call, whose scope `sb.append(a)` has token
    `append`, then the inner call, whose scope is `sb`. There is one "call"
    node `append`, and the outer call's scope token resolves to that node
    itself.
  - `ArgSelfLoop` covers `foo(foo())`.
  - `AssignSelfLoop` covers `x = x;`.
  - Nothing catches these exceptions. One leaves the `Method` constructor,
    the stream of `FileASTParser`'s constructor and `main`, whose handler
    only catches `IOException`, so the run stops there.
- `checkRootRelations` is never called by the pipeline, so no "contains" edge
  appears in a method's graph. `RootRelationsPassEffect` states what it would
  add.
- A name that is not resolved gets a new "id" node every time it is used as
  an argument or an assigned value.
  - Arguments are deduplicated by value, so only the first such node gets an
    "arg" edge.
  - Assignments are deduplicated by identity, so every such node gets a
    "relatedTo" edge.
- A cast repeated on the same variable adds its "type" edge again.
- The exceptions pass adds one "import" node per thrown type without looking
  for an existing one. The uniqueness of "import" labels therefore holds only
  when the `throws` clause has no duplicates; `MethodGraphDisciplined`
  requires exactly that.

## Model

| member | source | states |
|---|---|---|
| RelationEnum.Relation.Id | src/main/java/geodes/sms/astparser/graph/RelationEnum.java:4-18 | the code of a constant is its position in the declaration order |
| RelationEnum.ValuesAreTheConstants | src/main/java/geodes/sms/astparser/graph/RelationEnum.java:4-12 | exactly nine constants, each listed once, with codes 0..8 in declaration order |
| RelationEnum.IdInjective | src/main/java/geodes/sms/astparser/graph/RelationEnum.java:4-12 | different relations have different codes |
| NodeTypeEnum.NodeType.Code | src/main/java/geodes/sms/astparser/graph/NodeTypeEnum.java:4-15 | the code of a constant is its position in the declaration order |
| NodeTypeEnum.ValuesAreTheConstants | src/main/java/geodes/sms/astparser/graph/NodeTypeEnum.java:4-9 | exactly six constants, each listed once, with codes 0..5 in declaration order |
| NodeTypeEnum.CodeInjective | src/main/java/geodes/sms/astparser/graph/NodeTypeEnum.java:4-9 | different node types have different codes |
| IdentifierNodes.IdentifierNode.constructor | src/main/java/geodes/sms/astparser/graph/IdentifierNode.java:8-11 | the node holds the given label and feature |
| IdentifierNodes.IdentifierNode.Value | src/main/java/geodes/sms/astparser/graph/IdentifierNode.java:25-31 | the value of a node is its label and its feature |
| IdentifierNodes.IdentifierNode.Equals | src/main/java/geodes/sms/astparser/graph/IdentifierNode.java:17-23 | an object equals a node exactly when it is a node with the same label and the same feature |
| IdentifierNodes.EqualsIsEquivalence | src/main/java/geodes/sms/astparser/graph/IdentifierNode.java:17-23 | `equals` is reflexive, symmetric and transitive on nodes |
| IdentifierNodes.IdentifierNode.SetFeature | src/main/java/geodes/sms/astparser/graph/IdentifierNode.java:33 | the feature becomes the given one and the label is unchanged |
| IdentifierNodes.IdentifierNode.ToString | src/main/java/geodes/sms/astparser/graph/IdentifierNode.java:35-37 | the rendering is the label, " / ", then the feature |
| IdentifierRelationEdges.IdentifierRelationEdge.constructor | src/main/java/geodes/sms/astparser/graph/IdentifierRelationEdge.java:10-14 | the edge holds the given relation, source and target |
| IdentifierRelationEdges.IdentifierRelationEdge.SetValue | src/main/java/geodes/sms/astparser/graph/IdentifierRelationEdge.java:20-22 | the relation becomes the given one and the endpoints are unchanged |
| IdentifierRelationEdges.IdentifierRelationEdge.ToString | src/main/java/geodes/sms/astparser/graph/IdentifierRelationEdge.java:24-26 | the rendering is the source label, " --", the relation, "-> ", then the target label |
| Network.NewGraph | src/main/java/geodes/sms/astparser/graph/GraphBuilder.java:24-33 | a new graph holds the method node alone, at the root position, and no edge |
| Network.AddNode | src/main/java/geodes/sms/astparser/graph/GraphBuilder.java:43 | a new node object is appended after the existing nodes; the edges are unchanged |
| Network.Link | src/main/java/geodes/sms/astparser/graph/GraphBuilder.java:45 | an edge between two unequal nodes is appended after the existing edges; the nodes are unchanged |
| Network.TryLink | src/main/java/geodes/sms/astparser/graph/GraphBuilder.java:28-30 | adding an edge fails with a self-loop error exactly when its endpoints are equal nodes; otherwise the edge is appended |
| Network.Find | src/main/java/geodes/sms/astparser/graph/GraphBuilder.java:289-291 | `findAny` yields the first node in insertion order that the filter accepts, and nothing exactly when no node is accepted |
| Network.GetMethodNode | src/main/java/geodes/sms/astparser/graph/GraphBuilder.java:288-293 | the result is a "method" node, and there is none exactly when no node has feature "method" |
| Network.MethodNodeIsRoot | src/main/java/geodes/sms/astparser/graph/GraphBuilder.java:288-293 | in any graph a builder holds, `getMethodNode` yields the root the builder was created with |
| Network.GetNodeWithFeature | src/main/java/geodes/sms/astparser/graph/GraphBuilder.java:314-318 | a node is found exactly when `nodeAndFeatureInGraph` holds; it has that label and feature, and no earlier node does |
| Network.GetNode | src/main/java/geodes/sms/astparser/graph/GraphBuilder.java:326-330 | the first node with the label whose feature is not "method"; nothing exactly when no such node exists |
| Network.EdgeBetweenIsIncident | src/main/java/geodes/sms/astparser/graph/GraphBuilder.java:339-359 | when `edgeBetweenNodes` holds, both endpoints satisfy `hasIncidentEdge` |
| Network.ExtendsKeepsLookups | src/main/java/geodes/sms/astparser/graph/GraphBuilder.java:302-341 | once a node or an edge is found, appending nodes and edges never makes it disappear |
| Network.ExtendsTransitive | src/main/java/geodes/sms/astparser/graph/GraphBuilder.java:40-270 | appending in one pass after another is appending |
| Network.AnyMatchIsFindAny | src/main/java/geodes/sms/astparser/graph/GraphBuilder.java:302-318 | `nodeAndFeatureInGraph` (`anyMatch`) holds exactly when the `filter(...).findAny()` of `getNodeWithFeature` finds a node |
| Network.LookupsFindOwnEdge | src/main/java/geodes/sms/astparser/graph/GraphBuilder.java:339-359 | every edge is found by `edgeBetweenNodes` and by `edgeNamedBetweenNodes` under its own relation, and both its ends satisfy `hasIncidentEdge` |
| Network.EdgeNamedComparesByValue | src/main/java/geodes/sms/astparser/graph/GraphBuilder.java:349-351 | `edgeNamedBetweenNodes` gives the same answer for two equal target nodes |
| Network.LookupsDisagreeOnEqualNodes | src/main/java/geodes/sms/astparser/graph/GraphBuilder.java:339-351 | for a target equal to an edge's target but with no edge into it, `edgeNamedBetweenNodes` holds and `edgeBetweenNodes` does not |
| Network.IncidentIsInOrOut | src/main/java/geodes/sms/astparser/graph/GraphBuilder.java:357-359 | `hasIncidentEdge` holds exactly when the node has an out-edge or an in-edge |
| Passes.ExceptionStep | src/main/java/geodes/sms/astparser/graph/GraphBuilder.java:41-46 | one exception only appends to the graph |
| Passes.ExceptionsPass | src/main/java/geodes/sms/astparser/graph/GraphBuilder.java:40-47 | the exceptions pass keeps every existing node and edge in place |
| Passes.AttachType | src/main/java/geodes/sms/astparser/graph/GraphBuilder.java:60-73 | attaching a type keeps every existing node and edge in place |
| Passes.ParameterStep | src/main/java/geodes/sms/astparser/graph/GraphBuilder.java:55-74 | one parameter only appends to the graph |
| Passes.ParametersPass | src/main/java/geodes/sms/astparser/graph/GraphBuilder.java:54-75 | the parameters pass keeps every existing node and edge in place |
| Passes.VariableStep | src/main/java/geodes/sms/astparser/graph/GraphBuilder.java:84-101 | one variable only appends to the graph |
| Passes.VariablesPass | src/main/java/geodes/sms/astparser/graph/GraphBuilder.java:82-103 | the variables pass keeps every existing node and edge in place, null list included |
| Passes.ReuseOrAdd | src/main/java/geodes/sms/astparser/graph/GraphBuilder.java:113-131 | the node returned carries the label and feature. An existing node leaves the graph unchanged; otherwise exactly one node and one root edge of the given relation are appended |
| Passes.CastStep | src/main/java/geodes/sms/astparser/graph/GraphBuilder.java:112-133 | one cast only appends to the graph |
| Passes.CastsPass | src/main/java/geodes/sms/astparser/graph/GraphBuilder.java:110-135 | the casts pass keeps every existing node and edge in place |
| Passes.CallStep | src/main/java/geodes/sms/astparser/graph/GraphBuilder.java:144-147 | one call name only appends to the graph |
| Passes.CallsPass | src/main/java/geodes/sms/astparser/graph/GraphBuilder.java:142-149 | the calls pass keeps every existing node and edge in place |
| Passes.CallVarStep | src/main/java/geodes/sms/astparser/graph/GraphBuilder.java:159-170 | one call-variable pair only appends to the graph |
| Passes.CallVarDependencyPass | src/main/java/geodes/sms/astparser/graph/GraphBuilder.java:157-172 | the call-variable pass keeps every existing node and edge in place |
| Passes.ScopeStep | src/main/java/geodes/sms/astparser/graph/GraphBuilder.java:182-198 | one scope entry, when it does not throw, only appends to the graph |
| Passes.CallScopesPass | src/main/java/geodes/sms/astparser/graph/GraphBuilder.java:180-200 | the scopes pass, when it does not throw, keeps every existing node and edge in place |
| Passes.Resolve | src/main/java/geodes/sms/astparser/graph/GraphBuilder.java:208-226 | kind "call" finds a "call" node or nothing, and never adds one. Any other kind finds a "param" node first, then a "var" node, and otherwise appends exactly one new "id" node and no edge |
| Passes.ArgStep | src/main/java/geodes/sms/astparser/graph/GraphBuilder.java:207-233 | one argument, when it does not throw, only appends to the graph |
| Passes.CallArgumentsPass | src/main/java/geodes/sms/astparser/graph/GraphBuilder.java:205-235 | the arguments pass, when it does not throw, keeps every existing node and edge in place |
| Passes.AssignStep | src/main/java/geodes/sms/astparser/graph/GraphBuilder.java:242-268 | one assignment, when it does not throw, only appends to the graph |
| Passes.VarAssignsPass | src/main/java/geodes/sms/astparser/graph/GraphBuilder.java:240-270 | the assignments pass, when it does not throw, keeps every existing node and edge in place |
| Passes.ContainsStep | src/main/java/geodes/sms/astparser/graph/GraphBuilder.java:276-280 | one node of the closing pass only appends to the graph |
| Passes.RootRelationsPass | src/main/java/geodes/sms/astparser/graph/GraphBuilder.java:272-281 | the closing pass keeps every existing node and edge in place |
| Passes.FoldExtends | src/main/java/geodes/sms/astparser/graph/GraphBuilder.java:41 | a `forEach` whose every step only appends only appends |
| Passes.TryFoldExtends | src/main/java/geodes/sms/astparser/graph/GraphBuilder.java:182 | a `forEach` whose every step only appends, when it does not throw, only appends |
| Builder.GraphBuilder.constructor | src/main/java/geodes/sms/astparser/graph/GraphBuilder.java:24-33 | the builder's graph is the method node alone |
| Builder.GraphBuilder.AddNode | src/main/java/geodes/sms/astparser/graph/GraphBuilder.java:43 | `addNode` appends the node and returns its position |
| Builder.GraphBuilder.AddEdge | src/main/java/geodes/sms/astparser/graph/GraphBuilder.java:45 | `addEdge` appends the edge, or reports the self-loop refusal and changes nothing |
| Builder.GraphBuilder.SetExceptionNodes | src/main/java/geodes/sms/astparser/graph/GraphBuilder.java:40-47 | the loop leaves exactly the graph of `Passes.ExceptionsPass` |
| Builder.GraphBuilder.AttachTypeTo | src/main/java/geodes/sms/astparser/graph/GraphBuilder.java:60-73 | leaves exactly the graph of `Passes.AttachType` |
| Builder.GraphBuilder.AddParameter | src/main/java/geodes/sms/astparser/graph/GraphBuilder.java:55-74 | leaves exactly the graph of `Passes.ParameterStep` |
| Builder.GraphBuilder.SetParameterNodes | src/main/java/geodes/sms/astparser/graph/GraphBuilder.java:54-75 | the loop leaves exactly the graph of `Passes.ParametersPass` |
| Builder.GraphBuilder.AddVariable | src/main/java/geodes/sms/astparser/graph/GraphBuilder.java:84-101 | leaves exactly the graph of `Passes.VariableStep` |
| Builder.GraphBuilder.SetVariableNodes | src/main/java/geodes/sms/astparser/graph/GraphBuilder.java:82-103 | the loop leaves exactly the graph of `Passes.VariablesPass` |
| Builder.GraphBuilder.ReuseOrAddNode | src/main/java/geodes/sms/astparser/graph/GraphBuilder.java:113-131 | leaves the graph and returns the node of `Passes.ReuseOrAdd` |
| Builder.GraphBuilder.AddCast | src/main/java/geodes/sms/astparser/graph/GraphBuilder.java:112-133 | leaves exactly the graph of `Passes.CastStep` |
| Builder.GraphBuilder.SetVariableCasts | src/main/java/geodes/sms/astparser/graph/GraphBuilder.java:110-135 | the loop leaves exactly the graph of `Passes.CastsPass` |
| Builder.GraphBuilder.SetCallNodes | src/main/java/geodes/sms/astparser/graph/GraphBuilder.java:142-149 | the loop leaves exactly the graph of `Passes.CallsPass` |
| Builder.GraphBuilder.AddCallVarDependency | src/main/java/geodes/sms/astparser/graph/GraphBuilder.java:159-170 | leaves exactly the graph of `Passes.CallVarStep` |
| Builder.GraphBuilder.SetCallNodesVarDependency | src/main/java/geodes/sms/astparser/graph/GraphBuilder.java:157-172 | the loop leaves exactly the graph of `Passes.CallVarDependencyPass` |
| Builder.GraphBuilder.AddScope | src/main/java/geodes/sms/astparser/graph/GraphBuilder.java:182-198 | throws exactly when `Passes.ScopeStep` fails, and otherwise leaves its graph |
| Builder.GraphBuilder.SetCallScopes | src/main/java/geodes/sms/astparser/graph/GraphBuilder.java:180-200 | the loop throws exactly when `Passes.CallScopesPass` fails, and otherwise leaves its graph |
| Builder.GraphBuilder.ResolveReference | src/main/java/geodes/sms/astparser/graph/GraphBuilder.java:208-226 | leaves the graph and returns the node of `Passes.Resolve` |
| Builder.GraphBuilder.AddArgument | src/main/java/geodes/sms/astparser/graph/GraphBuilder.java:207-233 | throws exactly when `Passes.ArgStep` fails, and otherwise leaves its graph |
| Builder.GraphBuilder.SetCallArguments | src/main/java/geodes/sms/astparser/graph/GraphBuilder.java:205-235 | the loop throws exactly when `Passes.CallArgumentsPass` fails, and otherwise leaves its graph |
| Builder.GraphBuilder.AddAssignment | src/main/java/geodes/sms/astparser/graph/GraphBuilder.java:242-268 | throws exactly when `Passes.AssignStep` fails, and otherwise leaves its graph |
| Builder.GraphBuilder.SetVarAssigns | src/main/java/geodes/sms/astparser/graph/GraphBuilder.java:240-270 | the loop throws exactly when `Passes.VarAssignsPass` fails, and otherwise leaves its graph |
| Builder.GraphBuilder.CheckRootRelations | src/main/java/geodes/sms/astparser/graph/GraphBuilder.java:272-281 | the loop leaves exactly the graph of `Passes.RootRelationsPass` |
| Builder.TryFoldStopsAtFailure | src/main/java/geodes/sms/astparser/graph/GraphBuilder.java:180-200 | once an element of a `forEach` has thrown, the whole pass throws the same exception |
| Builder.FoldNext | src/main/java/geodes/sms/astparser/graph/GraphBuilder.java:41 | `forEach` visits the list first to last: one more element is one more step, applied after the others |
| Builder.TryFoldNext | src/main/java/geodes/sms/astparser/graph/GraphBuilder.java:182 | the same for a pass that may throw, once the earlier elements have not thrown |
| PassProperties.AddNodeKeeps | src/main/java/geodes/sms/astparser/graph/GraphBuilder.java:43 | adding a node keeps `Disciplined` unless it repeats the label of a "var", "call" or "import" node |
| PassProperties.LinkKeepsLinkedOnce | src/main/java/geodes/sms/astparser/graph/GraphBuilder.java:166-167 | an edge added only where no edge joins its endpoints keeps its relation linked once |
| PassProperties.LinkKeeps | src/main/java/geodes/sms/astparser/graph/GraphBuilder.java:166-167 | an edge keeps `Disciplined` when "calls", "scope" and "relatedTo" edges go only where no edge is, and "arg" edges only where no "arg" edge reaches an equal node |
| PassProperties.FreshHasNoEdges | src/main/java/geodes/sms/astparser/graph/GraphBuilder.java:194-195 | a node just added has no edges, and adding a node changes no `edgeBetweenNodes` answer |
| PassProperties.AddNodeKeepsEdgeNamed | src/main/java/geodes/sms/astparser/graph/GraphBuilder.java:222-229 | adding a node changes no `edgeNamedBetweenNodes` answer about the nodes already present |
| PassProperties.ExceptionStepKeeps | src/main/java/geodes/sms/astparser/graph/GraphBuilder.java:41-46 | an exception whose "import" node is not yet present keeps `Disciplined` |
| PassProperties.AttachTypeKeeps | src/main/java/geodes/sms/astparser/graph/GraphBuilder.java:60-73 | attaching a type keeps `Disciplined`: the "import" node is created only when absent |
| PassProperties.ParameterStepKeeps | src/main/java/geodes/sms/astparser/graph/GraphBuilder.java:55-74 | a parameter keeps `Disciplined` |
| PassProperties.VariableStepKeeps | src/main/java/geodes/sms/astparser/graph/GraphBuilder.java:84-101 | a variable keeps `Disciplined`: its "var" node is created only when absent |
| PassProperties.ReuseOrAddKeeps | src/main/java/geodes/sms/astparser/graph/GraphBuilder.java:113-131 | the reuse-or-create step keeps `Disciplined` |
| PassProperties.CastStepKeeps | src/main/java/geodes/sms/astparser/graph/GraphBuilder.java:112-133 | a cast keeps `Disciplined` |
| PassProperties.CallStepKeeps | src/main/java/geodes/sms/astparser/graph/GraphBuilder.java:144-147 | a call name not yet present as a "call" node keeps `Disciplined` |
| PassProperties.CallVarStepKeeps | src/main/java/geodes/sms/astparser/graph/GraphBuilder.java:159-170 | a call-variable pair keeps `Disciplined`: "calls" is added only where no edge is |
| PassProperties.ScopeStepKeeps | src/main/java/geodes/sms/astparser/graph/GraphBuilder.java:182-198 | a scope entry that does not throw keeps `Disciplined` |
| PassProperties.ResolveKeeps | src/main/java/geodes/sms/astparser/graph/GraphBuilder.java:208-226 | resolving a reference keeps `Disciplined` |
| PassProperties.ArgStepKeeps | src/main/java/geodes/sms/astparser/graph/GraphBuilder.java:207-233 | an argument that does not throw keeps `Disciplined` |
| PassProperties.AssignStepKeeps | src/main/java/geodes/sms/astparser/graph/GraphBuilder.java:242-268 | an assignment that does not throw keeps `Disciplined` |
| PassProperties.ContainsStepKeeps | src/main/java/geodes/sms/astparser/graph/GraphBuilder.java:276-280 | one node of the closing pass keeps `Disciplined` |
| PassProperties.FoldKeeps | src/main/java/geodes/sms/astparser/graph/GraphBuilder.java:41 | a `forEach` whose every element keeps an invariant keeps it |
| PassProperties.TryFoldKeeps | src/main/java/geodes/sms/astparser/graph/GraphBuilder.java:182 | a `forEach` whose every element keeps an invariant keeps it when no element throws |
| PassProperties.ExceptionsPassAppends | src/main/java/geodes/sms/astparser/graph/GraphBuilder.java:40-47 | the exceptions pass appends one "import" node per exception, in list order, each with one root "dependsOn" edge, in the same order |
| PassProperties.ExceptionsPassKeeps | src/main/java/geodes/sms/astparser/graph/GraphBuilder.java:40-47 | distinct exceptions not yet present as "import" nodes keep `Disciplined` |
| PassProperties.CallsPassAppends | src/main/java/geodes/sms/astparser/graph/GraphBuilder.java:142-149 | the calls pass appends one "call" node per name, in list order, and no edge |
| PassProperties.CallsPassKeeps | src/main/java/geodes/sms/astparser/graph/GraphBuilder.java:142-149 | distinct call names not yet present as "call" nodes keep `Disciplined` |
| PassProperties.ParametersPassKeeps | src/main/java/geodes/sms/astparser/graph/GraphBuilder.java:54-75 | the parameters pass keeps `Disciplined` |
| PassProperties.VariablesPassKeeps | src/main/java/geodes/sms/astparser/graph/GraphBuilder.java:82-103 | the variables pass keeps `Disciplined` |
| PassProperties.CastsPassKeeps | src/main/java/geodes/sms/astparser/graph/GraphBuilder.java:110-135 | the casts pass keeps `Disciplined` |
| PassProperties.CallVarDependencyPassKeeps | src/main/java/geodes/sms/astparser/graph/GraphBuilder.java:157-172 | the call-variable pass keeps `Disciplined` |
| PassProperties.CallScopesPassKeeps | src/main/java/geodes/sms/astparser/graph/GraphBuilder.java:180-200 | the scopes pass, when it does not throw, keeps `Disciplined` |
| PassProperties.CallArgumentsPassKeeps | src/main/java/geodes/sms/astparser/graph/GraphBuilder.java:205-235 | the arguments pass, when it does not throw, keeps `Disciplined` |
| PassProperties.VarAssignsPassKeeps | src/main/java/geodes/sms/astparser/graph/GraphBuilder.java:240-270 | the assignments pass, when it does not throw, keeps `Disciplined` |
| PassProperties.FoundStaysFound | src/main/java/geodes/sms/astparser/graph/GraphBuilder.java:314-318 | once `getNodeWithFeature` finds a node, appending never changes which node it finds |
| PassProperties.ReuseOrAddFinds | src/main/java/geodes/sms/astparser/graph/GraphBuilder.java:113-131 | after the reuse-or-create step, `getNodeWithFeature` finds exactly the node it returned |
| PassProperties.VariablesPassDeclares | src/main/java/geodes/sms/astparser/graph/GraphBuilder.java:82-103 | after the variables pass, every listed name has a "var" node |
| PassProperties.RedeclarationIgnored | src/main/java/geodes/sms/astparser/graph/GraphBuilder.java:85 | a variable whose name was listed before changes nothing, whatever its type |
| PassProperties.CastTypeEdgeRepeats | src/main/java/geodes/sms/astparser/graph/GraphBuilder.java:132 | the same cast twice ends with two equal "type" edges: the cast's "type" edge is not deduplicated |
| PassProperties.CastStepLinks | src/main/java/geodes/sms/astparser/graph/GraphBuilder.java:112-132 | after a cast, its "var" and "import" nodes are found, and the last edge is the "type" edge from the first to the second |
| PassProperties.CastStepReuses | src/main/java/geodes/sms/astparser/graph/GraphBuilder.java:113-132 | a cast whose "var" and "import" nodes both exist adds no node and only the "type" edge between them |
| PassProperties.CastStepTwice | src/main/java/geodes/sms/astparser/graph/GraphBuilder.java:112-132 | the same cast twice in a row ends with two equal "type" edges |
| PassProperties.ArgIdNodesRepeat | src/main/java/geodes/sms/astparser/graph/GraphBuilder.java:220-231 | the same unresolved argument twice adds two "id" nodes and one "arg" edge, to the first |
| PassProperties.ArgToFreshId | src/main/java/geodes/sms/astparser/graph/GraphBuilder.java:207-231 | an unresolved argument with no equal "id" node yet adds a new "id" node and an "arg" edge from the call to it |
| PassProperties.ArgToRepeatedId | src/main/java/geodes/sms/astparser/graph/GraphBuilder.java:207-231 | an unresolved argument whose call already has an "arg" edge to an equal "id" node adds a new "id" node and no edge |
| PassProperties.IdKeepsUnresolved | src/main/java/geodes/sms/astparser/graph/GraphBuilder.java:214-223 | a new "id" node leaves its name without a "param" or "var" node |
| PassProperties.AssignIdNodesRepeat | src/main/java/geodes/sms/astparser/graph/GraphBuilder.java:255-266 | the same unresolved assignment twice adds two "id" nodes and a "relatedTo" edge to each |
| PassProperties.AssignToFreshId | src/main/java/geodes/sms/astparser/graph/GraphBuilder.java:242-266 | an assignment from an unresolved name adds a new "id" node and a "relatedTo" edge from the variable to it |
| PassProperties.NoEdgeToItself | src/main/java/geodes/sms/astparser/graph/GraphBuilder.java:339-351 | in a builder's graph, no node has an edge to itself, of any relation |
| PassProperties.ScopeSelfLoop | src/main/java/geodes/sms/astparser/graph/GraphBuilder.java:183-191 | a call whose scope token is its own name, and which `getNode` finds as its "call" node, throws |
| PassProperties.ArgSelfLoop | src/main/java/geodes/sms/astparser/graph/GraphBuilder.java:208-230 | a call with a call of the same name as argument throws |
| PassProperties.AssignSelfLoop | src/main/java/geodes/sms/astparser/graph/GraphBuilder.java:243-265 | assigning a variable (with no parameter of that name) to itself throws |
| PassProperties.ContainsFold | src/main/java/geodes/sms/astparser/graph/GraphBuilder.java:274-280 | after visiting the first i nodes, the closing pass added only root "contains" edges, and each visited non-root node has an edge from the root |
| PassProperties.RootRelationsPassEffect | src/main/java/geodes/sms/astparser/graph/GraphBuilder.java:272-281 | `checkRootRelations` adds no node, adds only root "contains" edges, leaves every non-root node a successor of the root, and keeps `Disciplined` |
| PassProperties.EarlyPassesAddNoCalls | src/main/java/geodes/sms/astparser/FileASTParser.java:73-77 | the passes before `setCallNodes` create no "call" node |
| PassProperties.AttachTypeAddsNoCalls | src/main/java/geodes/sms/astparser/graph/GraphBuilder.java:60-73 | attaching a type creates no "call" node |
| PassProperties.ExceptionStepAddsNoCalls | src/main/java/geodes/sms/astparser/graph/GraphBuilder.java:41-46 | an exception creates no "call" node |
| PassProperties.ParameterStepAddsNoCalls | src/main/java/geodes/sms/astparser/graph/GraphBuilder.java:55-74 | a parameter creates no "call" node |
| PassProperties.VariableStepAddsNoCalls | src/main/java/geodes/sms/astparser/graph/GraphBuilder.java:84-101 | a variable creates no "call" node |
| PassProperties.CastStepAddsNoCalls | src/main/java/geodes/sms/astparser/graph/GraphBuilder.java:112-133 | a cast creates no "call" node |
| ScopeToken.Close | src/main/java/geodes/sms/astparser/FileASTParser.java:191 | the lazy group `\(.*?\)` closes at the first ")"; no group closes when every ")" lies after a line terminator |
| ScopeToken.Strip | src/main/java/geodes/sms/astparser/FileASTParser.java:191 | deleting groups never lengthens the text |
| ScopeToken.StripKeepsUnclosed | src/main/java/geodes/sms/astparser/FileASTParser.java:191 | text with no closable group keeps that property after deletion |
| ScopeToken.StripLeavesNoGroup | src/main/java/geodes/sms/astparser/FileASTParser.java:191 | after `replaceAll` no parenthesised group is left to delete |
| ScopeToken.NoGroupIsFixed | src/main/java/geodes/sms/astparser/FileASTParser.java:191 | text without a group is unchanged by the deletion |
| ScopeToken.StripIdempotent | src/main/java/geodes/sms/astparser/FileASTParser.java:191 | deleting groups twice equals deleting them once |
| ScopeToken.StripKeepsPlainPrefix | src/main/java/geodes/sms/astparser/FileASTParser.java:191 | a prefix without "(" is kept as it is |
| ScopeToken.StripDeletesGroup | src/main/java/geodes/sms/astparser/FileASTParser.java:191 | "(" + text without ")" or a line break + ")" is deleted |
| ScopeToken.StripKeepsUnmatchedOpen | src/main/java/geodes/sms/astparser/FileASTParser.java:191 | a "(" with no reachable ")" is kept |
| ScopeToken.Segments | src/main/java/geodes/sms/astparser/FileASTParser.java:191 | splitting on dots gives dot-free pieces that rejoin to the text |
| ScopeToken.JavaSplitDotReading | src/main/java/geodes/sms/astparser/FileASTParser.java:191 | the pieces of `split("\\.")` hold no dot; there are none exactly when the text is non-empty and all dots; otherwise the last is the text after the last dot, trailing dots ignored |
| ScopeToken.DropTrailingEmpty | src/main/java/geodes/sms/astparser/FileASTParser.java:191 | `split` drops exactly the trailing empty pieces |
| ScopeToken.ScopeTokenOf | src/main/java/geodes/sms/astparser/FileASTParser.java:190-192 | the only failure is the empty split of its own scope text |
| ScopeToken.LastSegment | src/main/java/geodes/sms/astparser/FileASTParser.java:191-192 | the last dot-separated piece is the text after the last dot |
| ScopeToken.SplitLast | src/main/java/geodes/sms/astparser/FileASTParser.java:191-192 | `split` is empty exactly on a text of dots only; otherwise its last piece is the text after the last dot, trailing dots ignored |
| ScopeToken.SplitLastDot | src/main/java/geodes/sms/astparser/FileASTParser.java:191 | appending a dot keeps the `split` reading (empty on dots only, last piece after the last dot) of the text before it |
| ScopeToken.SplitLastNoDot | src/main/java/geodes/sms/astparser/FileASTParser.java:191 | on text ending in another character, `split` is non-empty and its last piece is the text after the last dot |
| ScopeToken.TrailingDotIgnored | src/main/java/geodes/sms/astparser/FileASTParser.java:191 | a trailing dot changes neither the split nor the text without trailing dots |
| ScopeToken.NoTrailingDot | src/main/java/geodes/sms/astparser/FileASTParser.java:191 | text not ending in a dot is not all dots, keeps every piece through `split`, and its last piece is the text after the last dot |
| ScopeToken.ScopeTokenReading | src/main/java/geodes/sms/astparser/FileASTParser.java:190-192 | the scope token is the text after the last dot of the group-free text with trailing dots removed, and the lookup throws exactly when that text is non-empty and all dots |
| ScopeToken.NoDotReading | src/main/java/geodes/sms/astparser/FileASTParser.java:191-192 | a text without a dot is its own last piece |
| ScopeToken.ScopeTokenShape | src/main/java/geodes/sms/astparser/FileASTParser.java:190-192 | a scope token holds no dot, and is empty only when the group-free text is empty or ends in a dot |
| ScopeToken.AfterLastDotOfJoin | src/main/java/geodes/sms/astparser/FileASTParser.java:191-192 | the text after the last dot of a + "." + b is b when b has no dot |
| ScopeToken.ChainedCallToken | src/main/java/geodes/sms/astparser/FileASTParser.java:188-192 | the scope `recv.name(arg)` of a chained call has token `name` |
| ScopeToken.PlainToken | src/main/java/geodes/sms/astparser/FileASTParser.java:190-192 | a scope text with no dot and no parenthesis is its own token |
| FileAstParser.Distinct | src/main/java/geodes/sms/astparser/FileASTParser.java:154 | `distinct()` keeps each element once, the same elements, in order of first occurrence |
| FileAstParser.FilterMap | src/main/java/geodes/sms/astparser/FileASTParser.java:166-171 | `map` then `filter(Objects::nonNull)` keeps exactly the present results, never more elements than the input |
| FileAstParser.FilterMapAppend | src/main/java/geodes/sms/astparser/FileASTParser.java:166-171 | the filtered stream keeps the order: filtering a concatenation is concatenating the filtered parts |
| FileAstParser.RetrieveVariables | src/main/java/geodes/sms/astparser/FileASTParser.java:114-126 | none without a body; otherwise one pair per declarator, in search order, of its name and the first simple name of its type |
| FileAstParser.RetrieveCasts | src/main/java/geodes/sms/astparser/FileASTParser.java:131-143 | none without a body; otherwise one entry per cast, null when the type has no simple name, else the expression text and type name |
| FileAstParser.RetrieveCalls | src/main/java/geodes/sms/astparser/FileASTParser.java:148-157 | none without a body; otherwise every call name once and no other name |
| FileAstParser.DependencyOf | src/main/java/geodes/sms/astparser/FileASTParser.java:166-171 | a declarator gives a pair exactly when it holds a call; the pair is its name with its first call |
| FileAstParser.RetrieveCallVarDependency | src/main/java/geodes/sms/astparser/FileASTParser.java:162-174 | none without a body; otherwise a pair for exactly each declarator containing a call: its first call and its name |
| FileAstParser.ScopeEntryOf | src/main/java/geodes/sms/astparser/FileASTParser.java:184-194 | a call without scope gives a null entry; with a scope, the call and its scope token, failing exactly when the token lookup throws |
| FileAstParser.ScopeEntries | src/main/java/geodes/sms/astparser/FileASTParser.java:183-195 | succeeds exactly when every entry does, and then gives one entry per call, in order |
| FileAstParser.RetrieveCallScopes | src/main/java/geodes/sms/astparser/FileASTParser.java:179-197 | none without a body; otherwise one entry per call, null exactly for calls without a scope |
| FileAstParser.ArgOf | src/main/java/geodes/sms/astparser/FileASTParser.java:208-216 | an argument gives a pair exactly when it is a method call or a bare name; the pair names the call, has kind "call" or "var", and gives back the argument |
| FileAstParser.CallArgs | src/main/java/geodes/sms/astparser/FileASTParser.java:206-217 | an argument pair for exactly each call argument that is a method call or a bare name |
| FileAstParser.RetrieveCallArgs | src/main/java/geodes/sms/astparser/FileASTParser.java:202-219 | none without a body; otherwise exactly the argument pairs of kind "call" or "var" of the calls' arguments |
| FileAstParser.AssignOf | src/main/java/geodes/sms/astparser/FileASTParser.java:228-238 | an assignment gives a pair exactly when it assigns a method call or a bare name to a bare name; the pair gives back the target and the value |
| FileAstParser.RetrieveVarAssigns | src/main/java/geodes/sms/astparser/FileASTParser.java:224-240 | none without a body; otherwise a pair for exactly each assignment of a call or a bare name to a bare name |
| FileAstParser.DeclarationGraph | src/main/java/geodes/sms/astparser/FileASTParser.java:70-79 | the graph after the root and the six passes that cannot throw extends the new graph |
| FileAstParser.DeclarationGraphDisciplined | src/main/java/geodes/sms/astparser/FileASTParser.java:73-79 | with no duplicate thrown type, the graph after the six passes that cannot throw is `Disciplined` |
| FileAstParser.DeclarationGraphDeclares | src/main/java/geodes/sms/astparser/FileASTParser.java:75-78 | after the six passes that cannot throw, every declared variable has a "var" node and every called name a "call" node |
| FileAstParser.MethodGraph | src/main/java/geodes/sms/astparser/FileASTParser.java:66-85 | the method's graph, built from the method node by the nine passes, extends the new graph and `DeclarationGraph` |
| FileAstParser.BuildMethodGraph | src/main/java/geodes/sms/astparser/FileASTParser.java:66-85 | driving a builder through the passes throws exactly when `MethodGraph` fails, and otherwise leaves its graph |
| FileAstParser.MethodGraphRoot | src/main/java/geodes/sms/astparser/FileASTParser.java:70-73 | the method's graph has the method node at the root, and `getMethodNode` finds it |
| FileAstParser.MethodGraphDisciplined | src/main/java/geodes/sms/astparser/FileASTParser.java:73-82 | with no duplicate thrown type, the method's graph is `Disciplined` |
| FileAstParser.MethodGraphDeclares | src/main/java/geodes/sms/astparser/FileASTParser.java:76-78 | every declared variable has a "var" node and every called name a "call" node |
| FileAstParser.SingleCallLists | src/main/java/geodes/sms/astparser/FileASTParser.java:114-197 | a body with a single call yields empty variable, cast and dependency lists, that call's name, and its scope entry |
| FileAstParser.SingleCallGraph | src/main/java/geodes/sms/astparser/FileASTParser.java:73-79 | for such a body, the passes up to the dependencies add exactly one "call" node |
| FileAstParser.ChainedCallAborts | src/main/java/geodes/sms/astparser/FileASTParser.java:80 | a method whose body is `receiver.name(a).name(b)`, found as the outer call with scope `receiver.name(a)` and then the inner call with scope `receiver`, throws the self-loop exception in `setCallScopes` |
| FileAstParser.TwoCallLists | src/main/java/geodes/sms/astparser/FileASTParser.java:114-174 | a body of two calls of one name lists that name once and no variable, cast or dependency |
| FileAstParser.DistinctTwice | src/main/java/geodes/sms/astparser/FileASTParser.java:154 | `distinct()` of one name twice keeps it once |
| FileAstParser.TwoCallDeclarationGraph | src/main/java/geodes/sms/astparser/FileASTParser.java:70-79 | such a body's graph before the scopes is the root and one "call" node |
| FileAstParser.TwoCallScopes | src/main/java/geodes/sms/astparser/FileASTParser.java:179-197 | such a body's scope entries are the two calls' entries, in order |
| FileAstParser.SelfScopeFirstAborts | src/main/java/geodes/sms/astparser/graph/GraphBuilder.java:180-200 | over the root and one "call" node, a scopes pass whose first entry scopes that call by its own name throws, whatever follows |

## Left out

- The JavaParser syntax tree is not modelled. A method declaration is given
  as the results of the tree queries: `findAll` in search order,
  `findFirst(SimpleName)` as an optional type name, and `toString` of
  expressions and scopes as text.
- The network library is not part of this model. Its behaviour is stated as
  the graph value plus the self-loop refusal, with node identity as position.
  Effects of hash collisions between distinct node objects are not modelled.
- Logging, `printGraph`, `toString` of `GraphBuilder` and of `Method`,
  `getGraph`, and the `System.out.println` at the end of the `Method`
  constructor are left out: they are output only.
- The `FileASTParser` constructor and `initializeImports` are left out. They
  loop over the file's method declarations and collect import names that
  nothing reads. `MethodGraph` models one `Method`.
- The one-argument `IdentifierNode(label)` constructor is left out. It leaves
  the feature null, and nothing in the core calls it.
- The partial graph a builder holds after a pass throws is not stated.
  Nothing in the source catches the exception. It leaves the `Method`
  constructor, the `map(Method::new)` stream of `FileASTParser`'s
  constructor and `main`, which catches only `IOException`. So the method
  gets no graph, and the remaining methods of the file and every later file
  are not parsed. `MethodGraph` models one method and states only the
  `Failure`.
- FileAstParser.RetrieveCallArgs: its contract states membership, not the
  order of the pairs (calls in search order, then arguments in order) and
  not how often a pair occurs.
- FileAstParser.CallArgs: the same as `RetrieveCallArgs`, which only wraps
  it. Its contract states membership, not order or multiplicity.
- FileAstParser.RetrieveCallVarDependency: its contract states membership,
  not the order of the pairs and not how often a pair occurs.
- FileAstParser.RetrieveVarAssigns: its contract states membership, not the
  order of the pairs and not how often a pair occurs.
- FileAstParser.FilterMap: its own contract states membership and a length
  bound. Order is stated by `FilterMapAppend`; multiplicity is not stated.
- FileAstParser.RetrieveExceptions and FileAstParser.RetrieveParameters have
  no row in the table. The `throws` and parameter queries are the input
  fields themselves, so each function returns its field unchanged.
- FileAstParser.RetrieveCalls: its contract states the set of names and the
  absence of duplicates. First-occurrence order is stated by
  `FileAstParser.Distinct`.
- ScopeToken.Strip: its own contract only bounds the length. What it deletes
  and keeps is stated by the `Strip*` lemmas.
- FileAstParser.MethodGraphDisciplined: requires a `throws` clause without
  duplicates, because the exceptions pass creates an "import" node per
  thrown type without looking for one.
