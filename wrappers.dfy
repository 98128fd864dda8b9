/** Failure-compatible result types standing in for the exceptions of the translator. */
module Wrappers {

  /** An absent or present value, in place of a reference that may be null. */
  datatype Option<+T> = None | Some(value: T)

  /** Either a value or the error that aborted the computation. */
  datatype Result<+T, +E> = Success(value: T) | Failure(error: E) {
    predicate IsFailure() {
      Failure?
    }

    function PropagateFailure<U>(): Result<U, E>
      requires Failure?
    {
      Failure(error)
    }

    function Extract(): T
      requires Success?
    {
      value
    }
  }

  /** The outcome of a computation run only for its effect. */
  datatype Outcome<+E> = Pass | Fail(error: E)
}
