/** Optional values: the generator's "next tuple or exhausted" answer and the
    parameter lookup's "found or None". */
module Wrappers {

  datatype Option<T> = None | Some(value: T) {

    /** The value, or a default when there is none (Python's `x if x is not None else d`). */
    function GetOr(default: T): T {
      match this
      case Some(v) => v
      case None => default
    }
  }
}
