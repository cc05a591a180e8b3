/** Success/failure carriers standing in for Rust's `Result<T, E>` and `Result<(), E>`. */
module Wrappers {

  /** A value, or the error that prevented computing it. */
  datatype Result<+T, +E> = Success(value: T) | Failure(error: E)

  /** `Result<(), E>`: either nothing went wrong, or an error value. */
  datatype Outcome<+E> = Pass | Fail(error: E)
}
