/** The optional-value datatype used for the storage slot (absent or holding a
    list) and for the optional text argument of the add operation. */
module Wrappers {

  datatype Option<+T> = None | Some(value: T) {

    /** The held value, or `default` when there is none. */
    function GetOr(default: T): T {
      match this
      case Some(v) => v
      case None => default
    }
  }
}
