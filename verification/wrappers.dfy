/** Optional values, used for the nullable configuration fields of the generic engine. */
module Wrappers {

  datatype Option<T> = None | Some(value: T)
  {
    /** `x ?? fallback` */
    function GetOr(fallback: T): (r: T)
      ensures Some? ==> r == value
      ensures None? ==> r == fallback
    {
      match this
      case None => fallback
      case Some(v) => v
    }
  }
}
