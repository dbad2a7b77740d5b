/** Option and Result: the absent values and error returns of the service. */
module Wrappers {

  /** A value that may be absent (`None` in Python, `NULL` in SQL). */
  datatype Option<+T> = None | Some(value: T)

  /** The outcome of an operation that can fail with an error of type `E`. */
  datatype Result<+T, +E> = Success(value: T) | Failure(error: E)
}
