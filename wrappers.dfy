/** Failure-carrying results, for the `error` returns of the Go driver. */
module Wrappers {

  datatype Option<+T> = None | Some(value: T)

  /** A value or an error: Go's `(T, error)` pair where exactly one side is meaningful. */
  datatype Result<+T, +E> = Ok(value: T) | Err(error: E)

  /** Go's plain `error` result: nil or an error. */
  datatype Outcome<+E> = Pass | Fail(error: E)
}
