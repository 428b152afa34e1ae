/** The relation vocabulary of the graph and its numeric codes. */
module RelationEnum {
  /** The nine constants, in declaration order. */
  datatype Relation = DependsOn | Parameter | Type | Defines | Calls | Scope | Arg | RelatedTo | Contains {

    /** The code given to the constant's constructor. A datatype value is immutable,
        so the code of a constant can never change. */
    function Id(): (id: nat)
      ensures id < |Values|
      ensures Values[id] == this
    {
      match this
      case DependsOn => 0
      case Parameter => 1
      case Type => 2
      case Defines => 3
      case Calls => 4
      case Scope => 5
      case Arg => 6
      case RelatedTo => 7
      case Contains => 8
    }
  }

  /** `values()`: every constant once, in declaration order. */
  const Values: seq<Relation> := [DependsOn, Parameter, Type, Defines, Calls, Scope, Arg, RelatedTo, Contains]

  /** There are exactly nine constants, each listed once, and the codes are 0..8 in
      declaration order. */
  lemma ValuesAreTheConstants()
    ensures |Values| == 9
    ensures forall r: Relation :: r in Values
    ensures forall i, j :: 0 <= i < j < |Values| ==> Values[i] != Values[j]
    ensures forall i :: 0 <= i < |Values| ==> Values[i].Id() == i
  {
    forall r: Relation ensures r in Values {
      assert Values[r.Id()] == r;
    }
  }

  /** Different constants have different codes. */
  lemma IdInjective(a: Relation, b: Relation)
    ensures a.Id() == b.Id() ==> a == b
  {
  }
}
