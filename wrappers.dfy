/** Failure-carrying values shared by every module of the model. */
module Wrappers {

  /** An optional value (Rust's `Option`). */
  datatype Option<+T> = None | Some(value: T) {
    function GetOr(default: T): T {
      match this
      case Some(v) => v
      case None => default
    }
  }

  /** A value or an error (Rust's `Result`, and `anyhow::Result` with a typed error). */
  datatype Result<+T, +E> = Ok(value: T) | Err(error: E)
}
