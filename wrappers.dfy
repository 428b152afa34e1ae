/** Optional values (Java's nullable references and `Optional`) and the outcome of
    a computation that may end with one of the Java exceptions the core can raise. */
module Wrappers {

  datatype Option<+T> = None | Some(value: T)

  /** The exceptions the modelled code can throw on its own inputs. */
  datatype Fault =
    /** Guava refuses an edge whose two endpoints are equal nodes (self-loops are
        disallowed by default): an IllegalArgumentException. */
    | SelfLoop(name: string)
    /** `split("\\.")` of a scope text that holds nothing but dots yields an empty
        array, and taking its last element throws ArrayIndexOutOfBoundsException. */
    | EmptySplit(scopeText: string)

  datatype Result<+T> = Success(value: T) | Failure(error: Fault) {
    predicate IsFailure() { Failure? }
    function PropagateFailure<U>(): Result<U>
      requires Failure?
    {
      Failure(error)
    }
    function Extract(): T
      requires Success?
    {
      value
    }
  }
}
