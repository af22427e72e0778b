/** The outcome of an operation that can be refused. */
module Wrappers {
  datatype Result<+T, +E> = Success(value: T) | Failure(error: E)
}
