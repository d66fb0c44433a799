/** Optional values and results that carry an error message. */
module Wrappers {

  datatype Option<+T> = None | Some(value: T) {
    /** The wrapped value, or `default` when there is none (Python's `dict.get(key, default)`). */
    function GetOr(default: T): T {
      match this
      case Some(v) => v
      case None => default
    }
  }

  /** An operation that either succeeds with a value or fails with a message (a raised exception). */
  datatype Result<+R> = Success(value: R) | Failure(error: string)
}
