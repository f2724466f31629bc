/** Failure-compatible wrappers used for Go's `(value, ok)` and `(value, error)` returns. */
module Wrappers {

  /** A value that may be absent: Go's `nil` pointer or `ok == false`. */
  datatype Option<+T> = None | Some(value: T)

  /** Either a value or an error: Go's `(T, error)` pair with exactly one meaningful half. */
  datatype Result<+R, +E> = Success(value: R) | Failure(error: E)
}
