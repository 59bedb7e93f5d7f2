/** Option and Result, the failure-carrying values used throughout the model. */
module Wrappers {

  /** An optional value, Rust's `Option`. */
  datatype Option<+T> = None | Some(value: T) {

    /** Returns the value, or `default` when there is none (Rust's `unwrap_or`). */
    function GetOr(default: T): T {
      match this
      case Some(v) => v
      case None => default
    }
  }

  /** A value or an error, Rust's `Result` with the error rendered as text. */
  datatype Result<+T> = Ok(value: T) | Err(error: string)
}
