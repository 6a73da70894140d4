/** Absent values and error returns used across the model. */
module Outcomes {

  /** A value that may be missing: Python's `None` or a SQLite NULL. */
  datatype Option<+T> = None | Some(value: T)

  /** The value a call returns, or the exception it raises. */
  datatype Result<+T, +E> = Ok(value: T) | Err(error: E)
}
