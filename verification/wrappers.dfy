/** Option and Result, the two failure-carrying shapes used throughout the model. */
module Wrappers {

  datatype Option<+T> = None | Some(value: T)

  /** A value or the error a TypeScript function would have thrown instead. */
  datatype Result<+R, +E> = Success(value: R) | Failure(error: E)
}
