/** Option and Result, the two failure-carrying shapes the source returns. */
module Wrappers {

  /** Rust's `Option<T>`. */
  datatype Option<+T> = None | Some(value: T)

  /** Rust's `Result<T, &'static str>`: the error carries the source's message. */
  datatype Result<+T> = Ok(value: T) | Err(error: string)
}
