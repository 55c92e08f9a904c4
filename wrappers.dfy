/** Option and Result, the two failure-carrying values the model needs. */
module Wrappers {

  /** A value that may be missing: Python's `None` or a found value. */
  datatype Option<+T> = None | Some(value: T)

  /** The outcome of an operation that may raise. */
  datatype Result<+R, +E> = Success(value: R) | Failure(error: E)
}
