/** Rust-style optional values and results, used for the state fields that may be
    absent and for every operation that can fail. */
module Wrappers {

  /** `Option<T>`: a value that may be absent. */
  datatype Option<+T> = None | Some(value: T)

  /** `Result<T, E>`: either a successful value or a typed error. */
  datatype Result<+T, +E> = Ok(value: T) | Err(error: E)
}
