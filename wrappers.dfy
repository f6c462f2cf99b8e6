/** The two wrapper datatypes of the model: Option for a value that may be
    absent, Result for an operation that may stop with an exception. */
module Wrappers {

  datatype Option<+T> = None | Some(value: T)

  /** Failure-compatible, so `:-` propagates the first exception. */
  datatype Result<+T, +E> = Success(value: T) | Failure(error: E) {

    predicate IsFailure() {
      Failure?
    }

    function PropagateFailure<U>(): Result<U, E>
      requires Failure?
    {
      Failure(error)
    }

    function Extract(): T
      requires Success?
    {
      value
    }
  }
}
