/** Failure-carrying return values: Go's `(value, error)` pairs become these. */
module Wrappers {

  /** A value that may be absent, as a parse that can fail. */
  datatype Option<+T> = None | Some(value: T)

  /** The result of an operation that returns a value or an error. */
  datatype Result<+T, +E> = Ok(value: T) | Err(error: E)

  /** The result of an operation that returns only an error (nil on success). */
  datatype Outcome<+E> = Pass | Fail(error: E)
}
