/** The optional-value datatype shared by every module of the model. */
module Wrappers {

  /** `None` plays the part of JavaScript's `null` / "not present". */
  datatype Option<+T> = None | Some(value: T) {

    /** The wrapped value, or `default` when there is none. */
    function GetOr(default: T): (r: T)
      ensures Some? ==> r == value
      ensures None? ==> r == default
    {
      match this
      case Some(v) => v
      case None => default
    }
  }
}
