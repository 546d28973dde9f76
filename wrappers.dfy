/** Failure-carrying values used across the model: `Option` for a lookup or a
    parse that may find nothing, `Result` for Rust's `Result<T, Box<dyn Error>>`. */
module Wrappers {

  datatype Option<+T> = None | Some(value: T)

  datatype Result<+T, +E> = Ok(value: T) | Err(error: E)
}
