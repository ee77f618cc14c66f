/** The optional value and the value-or-error used throughout the model. */
module Wrappers {

  /** Python's `None` or a value. */
  datatype Option<+T> = None | Some(value: T)

  /** A value, or the exception that the source would raise instead. */
  datatype Result<+T, +E> = Ok(value: T) | Err(error: E)
}
