/** Wrappers: an optional value, and a value-or-error. */
module Wrappers {

  /** A value that may be absent (TypeScript's `T | undefined`). */
  datatype Option<+T> = None | Some(value: T) {

    /** The wrapped value, or `default` when absent (TypeScript's `x || default` on an optional). */
    function GetOr(default: T): T {
      match this
      case Some(v) => v
      case None => default
    }
  }

  /** Either a value or the error a TypeScript function would have thrown. */
  datatype Result<+R, +E> = Success(value: R) | Failure(error: E)
}
