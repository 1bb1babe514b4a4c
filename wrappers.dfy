/** Rust's `Option` and `Result`, the two return shapes the library uses. */
module Wrappers {

  datatype Option<+T> = None | Some(value: T)

  /** `std::result::Result`; `Result<T>` in the library fixes the error type to `Errors.Error`. */
  datatype Result<+T, +E> = Ok(value: T) | Err(error: E)
}
