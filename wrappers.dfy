/** Option and Result, the two failure-carrying shapes the bridge uses. */
module Wrappers {

  /** A value that may be absent (Rust's `Option`). */
  datatype Option<+T> = None | Some(value: T) {

    /** The value, or `default` when absent (Rust's `unwrap_or`). */
    function GetOr(default: T): T
    {
      match this
      case Some(v) => v
      case None => default
    }
  }

  /** A value or an error (Rust's `Result`). */
  datatype Result<+R, +E> = Success(value: R) | Failure(error: E)
}
