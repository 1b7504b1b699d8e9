/** Python's `None`-or-value, as an option type. */
module Wrappers {

  datatype Option<+T> = None | Some(value: T) {

    /** `x or default` for a value that is either None or present. */
    function GetOr(default: T): T {
      match this
      case Some(v) => v
      case None => default
    }
  }
}
