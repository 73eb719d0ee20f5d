/** Option and Result, standing for Python's `None` and for a raised exception. */
module Wrappers {

  /** A value, or Python's `None`. */
  datatype Option<+T> = None | Some(value: T)

  /** A value, or the exception a Python expression raises. */
  datatype Result<+T, +E> = Success(value: T) | Failure(error: E)
}
