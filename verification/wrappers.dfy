/** Small failure-carrying datatypes shared by the model. */
module Wrappers {
  /** A value that may be missing: a Python `None`, or an exception that escapes. */
  datatype Option<+T> = None | Some(value: T)

  /** A value or the error that was raised instead of it. */
  datatype Result<+T, +E> = Ok(value: T) | Err(error: E)
}
