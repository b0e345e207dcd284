/** Failure-compatible wrappers shared by the language-server folder model. */
module Wrappers {

  /** A value that may be absent: JavaScript's `undefined` becomes `None`. */
  datatype Option<+T> = None | Some(value: T)

  /** Either a value or the reason the source would have thrown instead. */
  datatype Result<+R, +E> = Success(value: R) | Failure(error: E) {
    predicate IsFailure() {
      Failure?
    }

    function PropagateFailure<U>(): Result<U, E>
      requires Failure?
    {
      Failure(error)
    }

    function Extract(): R
      requires Success?
    {
      value
    }
  }
}
