/** Failure-compatible wrappers used throughout the model: an optional value
    and a value-or-error result, standing in for JavaScript's `null`/`undefined`
    and for thrown exceptions. */
module Wrappers {

  datatype Option<+T> = None | Some(value: T) {

    /** The wrapped value, or `default` when there is none (JavaScript's `x || d`
        and destructuring defaults). */
    function GetOr(default: T): T {
      match this
      case Some(v) => v
      case None => default
    }
  }

  datatype Result<+R, +E> = Success(value: R) | Failure(error: E)
}
