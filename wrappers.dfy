/** Failure-carrying results shared by both components. */
module Wrappers {

  /** A value that may be absent. */
  datatype Option<+T> = None | Some(value: T)

  /** The outcome of an operation that returns only an error (Go's `error`, nil on success). */
  datatype Outcome<+E> = Pass | Fail(error: E)

  /** The outcome of an operation that returns a value or an error. */
  datatype Result<+R, +E> = Success(value: R) | Failure(error: E)
}
