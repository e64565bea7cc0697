/** Optional and fallible values, standing in for JavaScript's `null`/`undefined`
    and for a promise that either resolves or rejects. */
module Wrappers {

  /** A value that may be absent (`null` or `undefined` in the source). */
  datatype Option<+T> = None | Some(value: T) {

    /** The value, or `default` when absent (the source's `x ?? d` / `x || d` on non-falsy values). */
    function GetOr(default: T): T {
      match this
      case Some(v) => v
      case None => default
    }
  }

  /** The outcome of an asynchronous load: the records, or the rejection message. */
  datatype Result<+R, +E> = Success(value: R) | Failure(error: E)
}
