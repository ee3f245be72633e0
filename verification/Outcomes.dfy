/** Failure-carrying result types shared by every component. A Python exception becomes a
    `Failure` value; a missing dictionary key or JSON null becomes `None`. */
module Outcomes {
  datatype Option<+T> = None | Some(value: T)

  datatype Result<+T, +E> = Success(value: T) | Failure(error: E)

  /** The outcome of a check that returns nothing. */
  datatype Outcome<+E> = Pass | Fail(error: E)

  /** What a commitment needs of its hash. */
  ghost predicate Injective<T(!new)>(hash: T -> string) {
    forall x, y :: hash(x) == hash(y) ==> x == y
  }
}
