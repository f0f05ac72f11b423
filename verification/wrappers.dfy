/** Option and Result, the failure-carrying datatypes used throughout the model. */
module Wrappers {

  /** A value that may be missing: the model of a C# nullable (`long?`) or a null reference. */
  datatype Option<+T> = None | Some(value: T)

  /** The outcome of an operation that can raise an exception instead of returning. */
  datatype Result<+R, +E> = Success(value: R) | Failure(error: E)
}
