/** Failure-carrying results: the model's stand-in for the exceptions the
    Python code raises. */
module Wrappers {

  /** Either a value or the error that stopped the computation. */
  datatype Result<+T, +E> = Success(value: T) | Failure(error: E)
}
