/** Failure-compatible wrappers shared by every module of the model. */
module Wrappers {

  /** An optional value; stands for JavaScript's `undefined`/`null` where the source uses them. */
  datatype Option<+T> = None | Some(value: T) {

    /** The wrapped value, or `default` when there is none (a defaulted parameter). */
    function GetOr(default: T): T {
      match this
      case Some(v) => v
      case None => default
    }
  }

  /** Either a value or the error the source would have thrown. */
  datatype Result<+T, +E> = Success(value: T) | Failure(error: E) {

    predicate IsFailure() {
      Failure?
    }

    function PropagateFailure<U>(): Result<U, E>
      requires Failure?
    {
      Failure(error)
    }

    function Extract(): T
      requires Success?
    {
      value
    }
  }
}
