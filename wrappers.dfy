/** The Option datatype used for the nullable columns and request fields of the model. */
module Wrappers {

  /** `None` stands for PHP's `null` (or a key missing from the request array). */
  datatype Option<+T> = None | Some(value: T) {

    /** PHP's null-coalescing `$x ?? default`. */
    function GetOr(default: T): (r: T)
      ensures Some? ==> r == value
      ensures None? ==> r == default
    {
      match this
      case Some(v) => v
      case None => default
    }
  }
}
