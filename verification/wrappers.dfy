/** Failure-compatible wrappers shared by every module of the model. */
module Wrappers {

  /** Rust's `Option<T>`. */
  datatype Option<+T> = None | Some(value: T)

  /** Rust's `Result<T, E>`; a panic of the source is an `Err` here. */
  datatype Result<+T, +E> = Ok(value: T) | Err(error: E)
}
