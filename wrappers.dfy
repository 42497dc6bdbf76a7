/** Failure-compatible result types shared by the host-side and on-target models. */
module Wrappers {

  datatype Option<+T> = None | Some(value: T)

  /** A value or the error that aborted the operation producing it. */
  datatype Result<+T, +E> = Success(value: T) | Failure(error: E) {
    predicate IsFailure() { Failure? }

    function PropagateFailure<U>(): Result<U, E>
      requires Failure?
    {
      Failure(error)
    }

    function Extract(): T
      requires Success?
    {
      value
    }
  }

  /** Success or failure of an operation that returns nothing. */
  datatype Outcome<+E> = Pass | Fail(error: E) {
    predicate IsFailure() { Fail? }

    function PropagateFailure<U>(): Result<U, E>
      requires Fail?
    {
      Failure(error)
    }
  }
}
