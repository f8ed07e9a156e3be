/** Option and Result, the two failure-carrying types the model needs. */
module Wrappers {

  /** Rust's `Option<T>`. */
  datatype Option<+T> = None | Some(value: T)

  /** Rust's `anyhow::Result<T>`; the error is kept as its message. */
  datatype Result<+T> = Ok(value: T) | Err(error: string)
}
