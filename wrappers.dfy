/** Option and Result, the shapes the form validators and views return. */
module Wrappers {

  /** A value that may be absent (Python's `None`). */
  datatype Option<+T> = None | Some(value: T) {

    /** The value, or `default` when absent: Python's `x or default` for a string field. */
    function GetOr(default: T): T {
      match this
      case Some(v) => v
      case None => default
    }
  }

  /** Either the cleaned value or the message of the `ValidationError` that was raised. */
  datatype Result<+T> = Ok(value: T) | Err(error: string)
}
