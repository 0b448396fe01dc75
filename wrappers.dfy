/** Optional values: Java's nullable references and `Optional`, and JavaScript's `undefined`/`null`. */
module Wrappers {
  datatype Option<T> = None | Some(value: T)
  {
    function GetOr(default: T): (r: T)
      ensures Some? ==> r == value
      ensures None? ==> r == default
    {
      match this
      case Some(v) => v
      case None => default
    }
  }

  /** The outcome of an operation that may throw: a value, or the exception it raised. */
  datatype Result<T, E> = Ok(value: T) | Err(error: E)
}
