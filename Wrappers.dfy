/** Optional values: `None` stands for Python's `None` (and for a raised exception
    that the caller turns into a fallback). */
module Wrappers {

  datatype Option<+T> = None | Some(value: T) {

    /** The value, or `default` when there is none. */
    function GetOr(default: T): T {
      match this
      case Some(v) => v
      case None => default
    }
  }
}
