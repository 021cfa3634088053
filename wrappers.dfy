/** Option and Result, the two failure-compatible wrappers the model uses for
    Python's `None` and for exceptions raised on the way. */
module Wrappers {

  datatype Option<+T> = None | Some(value: T) {
    predicate IsFailure() { None? }

    function PropagateFailure<U>(): Option<U>
      requires None?
    {
      None
    }

    function Extract(): T
      requires Some?
    {
      value
    }
  }

  datatype Result<+R, +E> = Success(value: R) | Failure(error: E) {
    predicate IsFailure() { Failure? }

    function PropagateFailure<U>(): Result<U, E>
      requires Failure?
    {
      Failure(error)
    }

    function Extract(): R
      requires Success?
    {
      value
    }
  }
}
