/** The optional value used wherever the source yields `undefined`, `null` or nothing. */
module Wrappers {

  datatype Option<+T> = None | Some(value: T) {

    /** `x || fallback` for a value that is either present or absent. */
    function GetOr(fallback: T): T
    {
      match this
      case Some(v) => v
      case None => fallback
    }
  }
}
