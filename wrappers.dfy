/** Option and Result values: `undefined` results and thrown errors of the source. */
module Wrappers {

  /** A value that may be absent (`undefined` / `null` in the source). */
  datatype Option<+T> = None | Some(value: T) {
    function GetOr(default: T): T {
      match this
      case Some(v) => v
      case None => default
    }
  }

  /** The result of an operation that may throw: the value, or the error message. */
  datatype Result<+T, +E> = Success(value: T) | Failure(error: E)
}
