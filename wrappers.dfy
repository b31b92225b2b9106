/** Option and Result types for the error paths of the model. */
module Wrappers {

  /** An optional value: Rust's `Option`. */
  datatype Option<+T> = None | Some(value: T)

  /** The failure half of Rust's `std::io::Result` / `anyhow::Result`: the model
      only records that an operating-system call failed, not why. */
  datatype IoError = IoError

  /** Rust's `Result<T, E>` with the error fixed to `IoError`. */
  datatype Result<+T> = Ok(value: T) | Err(error: IoError)
}
