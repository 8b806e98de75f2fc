/**
 * Optional values and results with an error case.
 *
 * `Option` stands for a Java reference that may be `null`; `Result` stands
 * for an operation that may throw.
 */
module Wrappers {

  datatype Option<T> = None | Some(value: T)
  {
    /** The value if present, otherwise `default`. */
    function GetOr(default: T): T
    {
      match this
      case None => default
      case Some(v) => v
    }
  }

  datatype Result<T, E> = Success(value: T) | Failure(error: E)
}
