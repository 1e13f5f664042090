/** The optional value used wherever the source may find nothing (a null DOM lookup, an unchecked radio). */
module Wrappers {
  datatype Option<+T> = None | Some(value: T) {
    function GetOr(default: T): T {
      match this
      case Some(v) => v
      case None => default
    }
  }
}
