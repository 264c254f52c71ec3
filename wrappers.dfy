/** Optional values: JavaScript's `null` / `undefined` / missing property. */
module Wrappers {

  datatype Option<+T> = None | Some(value: T) {

    /** The value, or `default` when there is none (JavaScript's `x || default`
        on an object-valued `x`, whose objects are always truthy). */
    function GetOr(default: T): T {
      match this
      case Some(v) => v
      case None => default
    }
  }
}
