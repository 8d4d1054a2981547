/** Option and Result datatypes shared by every module of the model. */
module Wrappers {

  datatype Option<+T> = None | Some(value: T)

  /** The outcome of an operation that either succeeds or raises a typed error. */
  datatype Result<+R, +E> = Success(value: R) | Failure(error: E)
}
