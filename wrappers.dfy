/** Option and Result, standing for Python's `None`-or-value returns and raised exceptions. */
module Wrappers {

  /** A value that may be absent (`None` in Python). */
  datatype Option<+T> = None | Some(value: T)

  /** The outcome of an operation that either returns a value or raises an error. */
  datatype Result<+T, +E> = Ok(value: T) | Err(error: E)
}
