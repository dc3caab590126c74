/** Failure-carrying result types used for the service's thrown exceptions. */
module Wrappers {

  datatype Option<+T> = None | Some(value: T)

  /** An operation that yields a value, or the error it would throw. */
  datatype Result<+R, +E> = Success(value: R) | Failure(error: E)

  /** An operation that yields nothing on success, or the error it would throw. */
  datatype Outcome<+E> = Pass | Fail(error: E)
}
