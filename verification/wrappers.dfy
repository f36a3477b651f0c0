/** Option and Result values standing in for PHP's `false` returns and thrown exceptions. */
module Wrappers {

  /** A value that may be absent, such as `getRealPath()` returning `false`. */
  datatype Option<+T> = None | Some(value: T)

  /** The outcome of an operation that either produces a value or throws. */
  datatype Result<+T, +E> = Success(value: T) | Failure(error: E)
}
