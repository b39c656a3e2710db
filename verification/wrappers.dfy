/** Failure-compatible wrappers shared by every module of the model:
    `Option` for Rust's `Option`, `Result` for Rust's `Result`, and
    `Outcome` for a `Result<()>`. */
module Wrappers {

  datatype Option<+T> = None | Some(value: T) {
    function GetOr(default: T): T {
      match this
      case Some(v) => v
      case None => default
    }
  }

  datatype Result<+R, +E> = Success(value: R) | Failure(error: E)

  /** The result of an operation that returns nothing on success. */
  datatype Outcome<+E> = Pass | Fail(error: E)
}
