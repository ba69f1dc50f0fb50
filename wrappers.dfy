/** Option and Result, the two failure-carrying wrappers the rest of the model uses. */
module Wrappers {

  datatype Option<+T> = None | Some(value: T)

  /** An operation that either succeeds with a value or stops with an error
      (the model's rendering of an exception thrown by the original code). */
  datatype Result<+T, +E> = Success(value: T) | Failure(error: E)
}
