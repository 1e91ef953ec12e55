/** Optional values and success/failure results used by every handler model. */
module Wrappers {

  /** A value that may be absent: a missing request field or a lookup that found nothing. */
  datatype Option<+T> = None | Some(value: T) {

    /** The wrapped value, or `default` when absent (Python's `dict.get(key, default)`). */
    function GetOr(default: T): T {
      match this
      case Some(v) => v
      case None => default
    }
  }

  /** The outcome of a handler: the new state on success, or the error response it returns. */
  datatype Result<+R, +E> = Success(value: R) | Failure(error: E)
}
