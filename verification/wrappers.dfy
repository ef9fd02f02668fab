/** Failure-compatible wrappers shared by every module of the model. */
module Wrappers {

  /** A value that may be absent (a lookup that found nothing). */
  datatype Option<+T> = None | Some(value: T)

  /**
   * The outcome of an operation that the C++ code can abort: an exception
   * that nothing catches, or an access that is undefined behaviour.
   */
  datatype Result<+T, +E> = Success(value: T) | Failure(error: E) {
    predicate IsFailure() {
      Failure?
    }

    function PropagateFailure<U>(): Result<U, E>
      requires Failure?
    {
      Failure(error)
    }

    function Extract(): T
      requires Success?
    {
      value
    }
  }
}
