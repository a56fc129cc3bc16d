/** The outcome of an operation that can fail with a recoverable error. */
module Wrappers {

  datatype Result<+T, +E> = Success(value: T) | Failure(error: E)
}
