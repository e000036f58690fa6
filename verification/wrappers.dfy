/** Option and Result, the failure-carrying datatypes the rest of the model returns. */
module Wrappers {

  /** A value that may be absent: a missing JSON key, a nullable column, a failed parse. */
  datatype Option<+T> = None | Some(value: T) {

    /** The value, or `default` when absent (Python's `dict.get(key, default)`). */
    function GetOr(default: T): T {
      match this
      case Some(v) => v
      case None => default
    }
  }

  /** The reply of a route: a value, or the error it reports to the client. */
  datatype Result<+R, +E> = Ok(value: R) | Err(error: E)
}
