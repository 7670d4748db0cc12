/** Option and Result, the two failure-carrying datatypes the model uses. */
module Wrappers {

  /** A value that may be absent (pandas NaN for a table cell). */
  datatype Option<+T> = None | Some(value: T)

  /** The outcome of an operation that can stop with an error. */
  datatype Result<+R, +E> = Success(value: R) | Failure(error: E)
}
