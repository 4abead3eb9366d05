/** Option and Result, the shapes of Rust's `Option` and of an operation that
    either yields a value or panics with a message. */
module Wrappers {

  datatype Option<+T> = None | Some(value: T)

  datatype Result<+T, +E> = Ok(value: T) | Err(error: E)
}
