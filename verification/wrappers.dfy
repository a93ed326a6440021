/** Failure-compatible Option and Result types, used for JavaScript's
    `undefined` and for thrown errors respectively. */
module Wrappers {

  /** `None` plays the role of JavaScript's `undefined`. */
  datatype Option<+T> = None | Some(value: T) {

    function GetOr(default: T): T {
      match this
      case Some(v) => v
      case None => default
    }
  }

  /** `Failure` is a thrown error; `:-` propagates it like an exception. */
  datatype Result<+T, +E> = Success(value: T) | Failure(error: E) {

    predicate IsFailure() {
      Failure?
    }

    function PropagateFailure<U>(): Result<U, E>
      requires Failure?
    {
      Failure(error)
    }

    function Extract(): T
      requires Success?
    {
      value
    }
  }
}
