/** Failure-carrying results used wherever the Python code raises an exception. */
module Outcomes {

  /** A value that may be absent (Python's `None`). */
  datatype Option<+T> = None | Some(value: T)

  /** Either a value or the error the Python code would have raised. */
  datatype Result<+T, +E> = Success(value: T) | Failure(error: E)
}
