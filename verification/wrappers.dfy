/** Option and Result datatypes used for the optional values and the raised
    exceptions of the modelled code. */
module Wrappers {

  /** A value that may be absent (Python's `None`). */
  datatype Option<+T> = None | Some(value: T) {

    /** The wrapped value, or `default` when absent. */
    function GetOr(default: T): T {
      match this
      case Some(v) => v
      case None => default
    }
  }

  /** Either a value or the error a Python function would have raised. */
  datatype Result<+R, +E> = Success(value: R) | Failure(error: E)
}
