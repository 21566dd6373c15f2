/** Failure-carrying datatypes shared by the whole model: Go's `nil`-able
    pointers and `(value, error)` returns are written with these. */
module Wrappers {

  /** A value that may be absent (a Go `nil` pointer, slice or error). */
  datatype Option<+T> = None | Some(value: T)

  /** The outcome of an operation that either produces a value or fails. */
  datatype Result<+R, +E> = Success(value: R) | Failure(error: E)
}
