/** Optional values: a missing query parameter, request-body field or database column. */
module Wrappers {

  datatype Option<+T> = None | Some(value: T) {

    /** The value, or `default` when it is missing (JavaScript's `x || default` for non-falsy values). */
    function GetOr(default: T): T {
      match this
      case Some(v) => v
      case None => default
    }
  }
}
