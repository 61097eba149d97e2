/** `Option` and `Result` as in Rust, shared by every module of the model. */
module Wrappers {

  /** A value that may be absent (Rust's `Option`). */
  datatype Option<+T> = None | Some(value: T)

  /** Either a value or an error (Rust's `Result`). */
  datatype Result<+R, +E> = Success(value: R) | Failure(error: E)
}
