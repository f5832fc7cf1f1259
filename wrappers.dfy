/** The optional value used for JSON fields that may be absent (`undefined`). */
module Wrappers {

  datatype Option<+T> = None | Some(value: T)

  /** The value carried by `v`, or `default` when `v` is absent. */
  function GetOr<T>(v: Option<T>, default: T): (r: T)
    ensures v.Some? ==> r == v.value
    ensures v.None? ==> r == default
  {
    match v
    case Some(x) => x
    case None => default
  }
}
