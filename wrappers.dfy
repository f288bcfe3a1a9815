/** Failure-carrying values used across the model: an absent value and the
    outcome of an operation that may reject with an error message. */
module Wrappers {

  datatype Option<+T> = None | Some(value: T) {
    function GetOr(default: T): T {
      match this
      case Some(v) => v
      case None => default
    }
  }

  /** A promise that resolves with `value` or rejects with `error`. */
  datatype Result<+T> = Ok(value: T) | Err(error: string)
}
