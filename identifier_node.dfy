/** A vertex of the graph: an identifier's text (the source's `label`; `label` is a
    keyword in Dafny, so it is called `name` here) and its feature, the role the
    identifier plays ("method", "param", "import", "var", "call" or "id"). */
module IdentifierNodes {

  /** The value of a node: what `equals` compares. */
  datatype NodeData = NodeData(name: string, feature: string)

  class IdentifierNode {
    /** Final in the source: fixed at construction. */
    const name: string
    var feature: string

    constructor (name: string, feature: string)
      ensures this.name == name && this.feature == feature
    {
      this.name := name;
      this.feature := feature;
    }

    function Value(): (v: NodeData)
      reads this
      ensures v.name == name && v.feature == feature
    {
      NodeData(name, feature)
    }

    /** Java `equals(Object)`: only another IdentifierNode can be equal, and then
        exactly when it holds the same value. */
    predicate Equals(o: object?)
      reads this, o
      ensures Equals(o) <==> o is IdentifierNode && (o as IdentifierNode).Value() == Value()
    {
      o is IdentifierNode && (o as IdentifierNode).name == name && (o as IdentifierNode).feature == feature
    }

    /** Changes the feature; the label is final and stays as it was. */
    method SetFeature(feature: string)
      modifies this
      ensures this.feature == feature
      ensures Value() == NodeData(name, feature)
    {
      this.feature := feature;
    }

    /** The rendering "label / feature". */
    function ToString(): (s: string)
      reads this
      ensures |s| == |name| + 3 + |feature|
      ensures s[..|name|] == name && s[|name|..|name| + 3] == " / " && s[|name| + 3..] == feature
    {
      name + " / " + feature
    }
  }

  /** `equals` is an equivalence on nodes. */
  lemma EqualsIsEquivalence(a: IdentifierNode, b: IdentifierNode, c: IdentifierNode)
    ensures a.Equals(a)
    ensures a.Equals(b) ==> b.Equals(a)
    ensures a.Equals(b) && b.Equals(c) ==> a.Equals(c)
  {
  }
}
