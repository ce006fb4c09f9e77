/** Option and Result, used for JavaScript's `undefined` and for the
    failures a request can end in. */
module Wrappers {

  datatype Option<+T> = None | Some(value: T) {
    /** The value if there is one, else `default` (JavaScript's `??`). */
    function GetOr(default: T): (r: T)
      ensures Some? ==> r == value
      ensures None? ==> r == default
    {
      match this
      case Some(v) => v
      case None => default
    }
  }

  datatype Result<+R, +E> = Success(value: R) | Failure(error: E)
}
