/** Failure-compatible wrappers shared by the handler model. */
module Wrappers {

  /** An optional value: the model of Python's `None` or a present value. */
  datatype Option<+T> = None | Some(value: T)

  /** Either a successful value or an error, usable with `:-`. */
  datatype Result<+R, +E> = Success(value: R) | Failure(error: E) {

    predicate IsFailure() {
      Failure?
    }

    function PropagateFailure<U>(): Result<U, E>
      requires Failure?
    {
      Failure(error)
    }

    function Extract(): R
      requires Success?
    {
      value
    }
  }
}
