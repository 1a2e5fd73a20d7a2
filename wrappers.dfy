/** The optional-value and value-or-error datatypes used across the model. */
module Wrappers {

  /** A value that may be absent: JavaScript's `null`/`undefined` or a failed match. */
  datatype Option<+T> = None | Some(value: T)

  /** The outcome of an operation that may throw: a value or the error it raised. */
  datatype Result<+R, +E> = Ok(value: R) | Err(error: E)
}
