/** Failure-carrying results: the model's stand-in for Python's exceptions and `None` returns. */
module Wrappers {

  /** A value that may be missing (`None` in Python). */
  datatype Option<+T> = None | Some(value: T)

  /** Either a value or the error the Python code raises instead. */
  datatype Result<+T, +E> = Ok(value: T) | Err(error: E)

  /** Success or an error, for operations that only change state. */
  datatype Outcome<+E> = Pass | Fail(error: E)
}
