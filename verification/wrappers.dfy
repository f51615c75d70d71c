/** Failure-carrying return values: Go's `(value, error)` pairs and nil
    results become one of these. */
module Wrappers {

  /** A value that may be absent (Go's nil result). */
  datatype Option<+T> = None | Some(value: T)

  /** Either a value or an error (Go's `(value, error)` pair). */
  datatype Result<+R, +E> = Success(value: R) | Failure(error: E)
}
