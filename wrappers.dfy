/**
 * Optional values: `None` stands for a JavaScript field that is `undefined` or
 * `null` (both are falsy, so `x || d` gives `d` for either), or for a call that threw.
 */
module Wrappers {

  datatype Option<+T> = None | Some(value: T) {

    /** The wrapped value, or `default` when there is none. */
    function GetOr(default: T): T {
      match this
      case Some(v) => v
      case None => default
    }
  }
}
