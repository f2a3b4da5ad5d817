/** The optional value: what the element parser returns, and what the model
    returns in place of a value where the source panics. */
module Wrappers {

  datatype Option<T> = None | Some(value: T)
  {
    /** The wrapped value, or `default` for `None` (`unwrap_or_else`). */
    function GetOr(default: T): (r: T)
      ensures Some? ==> r == value
      ensures None? ==> r == default
    {
      match this
      case Some(v) => v
      case None => default
    }
  }
}
