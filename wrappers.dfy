/** An optional value (JavaScript's `null` result, or a missing JSON field)
    and a success-or-error outcome (an HTTP error response). */
module Wrappers {
  datatype Option<+T> = None | Some(value: T)
  {
    function GetOr(default: T): T
    {
      match this
      case Some(v) => v
      case None => default
    }
  }

  datatype Result<+T, +E> = Ok(value: T) | Err(error: E)
}
