/**
 * Failure-compatible results for the Python exceptions the algorithms raise.
 */
module Wrappers {

  datatype Option<T> = None | Some(value: T)

  /** The Python exception classes the modelled code raises. */
  datatype Error = ValueError | IndexError | KeyError | TypeError

  /** A value, or the exception that Python would have raised instead. */
  datatype Result<T> = Success(value: T) | Failure(error: Error)
}
