/** Option and Result, the failure-compatible wrappers used by every stage. */
module Wrappers {

  datatype Option<+T> = None | Some(value: T)

  /** The outcome of a stage: its value, or the error that aborts the conversion. */
  datatype Result<+R, +E> = Success(value: R) | Failure(error: E) {
    predicate IsFailure() {
      Failure?
    }

    function PropagateFailure<U>(): Result<U, E>
      requires Failure?
    {
      Failure(error)
    }

    function Extract(): R
      requires Success?
    {
      value
    }
  }
}
