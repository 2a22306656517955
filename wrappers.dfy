/** Option and Result, the two failure-compatible wrappers the model uses. */
module Wrappers {

  datatype Option<+T> = None | Some(value: T)

  /** The outcome of a step that the Python code would abandon with an exception. */
  datatype Result<+R, +E> = Success(value: R) | Failure(error: E)
}
