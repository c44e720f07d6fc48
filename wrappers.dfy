/** Optional values: JavaScript's `null`/`undefined` and SQL's NULL. */
module Wrappers {

  datatype Option<+T> = None | Some(value: T) {

    /** `x ?? default` */
    function GetOr(default: T): T {
      match this
      case Some(v) => v
      case None => default
    }
  }

  /**
   * `x ?? null` on an optional nullable input: an absent value (None) and an explicit null
   * (Some(None)) both become null.
   */
  function OrNull<T>(x: Option<Option<T>>): Option<T> {
    if x.Some? then x.value else None
  }
}
