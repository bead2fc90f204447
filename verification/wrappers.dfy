/** The optional-value datatype used for dictionary lookups that may miss. */
module Wrappers {

  /** `None` is an absent key; `Some(v)` a key present with value `v`. */
  datatype Option<+T> = None | Some(value: T) {

    /** The value if present, otherwise `default` (the two-argument `dict.get`). */
    function GetOr(default: T): (r: T)
      ensures Some? ==> r == value
      ensures None? ==> r == default
    {
      match this
      case Some(v) => v
      case None => default
    }
  }
}
