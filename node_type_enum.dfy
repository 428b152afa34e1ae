/** The node kinds of the graph and their numeric codes. */
module NodeTypeEnum {
  /** The six constants, in declaration order. */
  datatype NodeType = Method | Param | Import | Var | Call | Id {

    /** The code given to the constant's constructor. A datatype value is immutable,
        so the code of a constant can never change. */
    function Code(): (id: nat)
      ensures id < |Values|
      ensures Values[id] == this
    {
      match this
      case Method => 0
      case Param => 1
      case Import => 2
      case Var => 3
      case Call => 4
      case Id => 5
    }
  }

  /** `values()`: every constant once, in declaration order. */
  const Values: seq<NodeType> := [Method, Param, Import, Var, Call, Id]

  /** There are exactly six constants, each listed once, and the codes are 0..5 in
      declaration order. */
  lemma ValuesAreTheConstants()
    ensures |Values| == 6
    ensures forall t: NodeType :: t in Values
    ensures forall i, j :: 0 <= i < j < |Values| ==> Values[i] != Values[j]
    ensures forall i :: 0 <= i < |Values| ==> Values[i].Code() == i
  {
    forall t: NodeType ensures t in Values {
      assert Values[t.Code()] == t;
    }
  }

  /** Different constants have different codes. */
  lemma CodeInjective(a: NodeType, b: NodeType)
    ensures a.Code() == b.Code() ==> a == b
  {
  }
}
