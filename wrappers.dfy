/** The optional value the model uses wherever the source has `null` or a missing
    field, and the outcome of an operation that may throw. */
module Wrappers {

  datatype Option<+T> = None | Some(value: T) {

    /** The value, or `default` when there is none. */
    function GetOr(default: T): T {
      match this
      case Some(v) => v
      case None => default
    }
  }

  /** The value an operation returns, or the message of the error it throws. */
  datatype Result<+T> = Ok(value: T) | Err(message: string)
}
