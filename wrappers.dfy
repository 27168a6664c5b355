/** The optional value used wherever the script tests a value that may be missing
    (`null`, `undefined` or an absent property). */
module Wrappers {

  datatype Option<+T> = None | Some(value: T) {

    /** The value, or `default` when there is none: the script's `x || default`
        for values that are never falsy when present. */
    function GetOr(default: T): T {
      match this
      case Some(v) => v
      case None => default
    }
  }
}
