/** A directed, labelled edge between two nodes. */
module IdentifierRelationEdges {
  import opened IdentifierNodes

  class IdentifierRelationEdge {
    /** Final in the source: fixed at construction. */
    const sourceNode: IdentifierNode
    const targetNode: IdentifierNode
    /** The relation string; `setValue` may replace it. */
    var value: string

    constructor (value: string, sourceNode: IdentifierNode, targetNode: IdentifierNode)
      ensures this.value == value && this.sourceNode == sourceNode && this.targetNode == targetNode
    {
      this.value := value;
      this.sourceNode := sourceNode;
      this.targetNode := targetNode;
    }

    /** Replaces the relation string; the endpoints are final and stay as they were. */
    method SetValue(value: string)
      modifies this
      ensures this.value == value
    {
      this.value := value;
    }

    /** The rendering "sourceLabel --value-> targetLabel". */
    function ToString(): (s: string)
      reads this
      ensures |s| == |sourceNode.name| + |value| + |targetNode.name| + 6
      ensures s[..|sourceNode.name|] == sourceNode.name
      ensures s[|sourceNode.name|..|sourceNode.name| + 3] == " --"
      ensures s[|sourceNode.name| + 3..|sourceNode.name| + 3 + |value|] == value
      ensures s[|sourceNode.name| + 3 + |value|..|s| - |targetNode.name|] == "-> "
      ensures s[|s| - |targetNode.name|..] == targetNode.name
    {
      sourceNode.name + " --" + value + "-> " + targetNode.name
    }
  }
}
