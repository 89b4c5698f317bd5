/** The optional value used for every field the sidebar document may leave out
    (`undefined` or `null` in the source) and for the optional bookmark folder. */
module Wrappers {

  datatype Option<+T> = None | Some(value: T) {

    /** The value, or `default` when absent: the source's `x ?? default`. */
    function GetOr(default: T): T {
      match this
      case Some(v) => v
      case None => default
    }
  }
}
