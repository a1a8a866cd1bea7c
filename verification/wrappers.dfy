/** Option and Result values standing in for Go's `(value, error)` return pairs. */
module Wrappers {

  datatype Option<+T> = None | Some(value: T)

  /** `Failure` carries the error a Go function would have returned as its last result. */
  datatype Result<+T, +E> = Success(value: T) | Failure(error: E)
}
