/** Failure-compatible wrapper used wherever the modelled code may have no value to return. */
module Wrappers {

  /** `None` stands for an absent value: a missing match, an absent file, a missing key. */
  datatype Option<+T> = None | Some(value: T) {

    /** The wrapped value, or `default` when there is none. */
    function GetOr(default: T): (r: T)
      ensures Some? ==> r == value
      ensures None? ==> r == default
    {
      match this
      case Some(v) => v
      case None => default
    }
  }
}
