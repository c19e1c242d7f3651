/** Optional values, used wherever the handler may find nothing (an absent key,
    a field of the wrong shape, a missing configuration variable). */
module Wrappers {

  datatype Option<+T> = None | Some(value: T) {

    /** Returns the value held in Some, or `default` if None. */
    function GetOr(default: T): T {
      match this
      case Some(v) => v
      case None => default
    }
  }
}
