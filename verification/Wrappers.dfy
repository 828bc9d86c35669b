/** Option and Result, the two failure-carrying datatypes the model uses in
    place of Rust's `Option<T>` and `Result<T, E>`. */
module Wrappers {

  /** Some value, or none (Rust's `Option<T>`). */
  datatype Option<+T> = None | Some(value: T)

  /** A value or an error (Rust's `Result<T, E>`). */
  datatype Result<+R, +E> = Success(value: R) | Failure(error: E)
}
