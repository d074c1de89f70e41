/** Optional values: `None` stands for JavaScript's `null`/`undefined`, or for
    `NaN` where an instant could not be parsed. */
module Wrappers {

  datatype Option<+T> = None | Some(value: T) {

    /** The wrapped value, or `default` when there is none. */
    function GetOr(default: T): T {
      match this
      case Some(v) => v
      case None => default
    }
  }
}
