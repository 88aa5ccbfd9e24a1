/** Failure-carrying results: the scripts' only runtime failure is Python's
    `max()` applied to an empty dictionary, which raises. */
module Wrappers {

  /** Why an operation did not produce a value. */
  datatype Error =
    | EmptyMax  // `max(d, key=d.get)` was applied to an empty dictionary

  datatype Result<+T> = Success(value: T) | Failure(error: Error) {
    predicate IsFailure() { Failure? }

    function PropagateFailure<U>(): Result<U>
      requires Failure?
    {
      Failure(error)
    }

    function Extract(): T
      requires Success?
    {
      value
    }
  }
}
