/** Option and Result, the two failure-carrying datatypes of the model. */
module Wrappers {

  datatype Option<+T> = None | Some(value: T)

  /** `Failure` stands for an exception the source raises. */
  datatype Result<+T, +E> = Success(value: T) | Failure(error: E)
}
