/** The optional value a page lookup yields. */
module Wrappers {

  datatype Option<+T> = None | Some(value: T) {

    /** The found value, or `default` when the lookup failed. */
    function GetOr(default: T): T {
      match this
      case Some(v) => v
      case None => default
    }
  }
}
