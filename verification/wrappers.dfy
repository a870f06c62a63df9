/** Optional values and outcomes that may carry an error, standing in for the
    Python code's `None` regex matches and raised exceptions. */
module Wrappers {

  /** A value that may be absent, like the result of `re.search`. */
  datatype Option<+T> = None | Some(value: T) {

    /** The carried value, or `default` when there is none. */
    function GetOr(default: T): T {
      match this
      case Some(v) => v
      case None => default
    }
  }

  /** Either a value or the error that would have been raised instead. */
  datatype Result<+T, +E> = Success(value: T) | Failure(error: E)
}
