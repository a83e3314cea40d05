/** A failure-compatible result type for operations that can end in a C++ exception. */
module Wrappers {

  datatype Result<+T, +E> = Success(value: T) | Failure(error: E)
}
