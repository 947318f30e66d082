/** Rust's `Option` and `Result`, used throughout the model. */
module Wrappers {

  /** Rust's `Option`. */
  datatype Option<+T> = None | Some(value: T)

  /** Rust's `Result`. */
  datatype Result<+T, +E> = Success(value: T) | Failure(error: E)
}
