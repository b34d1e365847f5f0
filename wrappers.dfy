/** Option and result values standing in for Python's `None` and its exceptions. */
module Wrappers {

  datatype Option<+T> = None | Some(value: T)

  /** The outcome of a bridge operation: a value, or the exception it raises. */
  datatype Result<+T, +E> = Ok(value: T) | Err(error: E)
}
