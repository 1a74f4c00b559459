/** Option and Result values used across the model. */
module Wrappers {

  /** A value that may be missing; `None` plays the role of pandas' NaN / Python's None. */
  datatype Option<+T> = None | Some(value: T)

  /** The outcome of a step that can raise. */
  datatype Result<+T, +E> = Success(value: T) | Failure(error: E)
}
