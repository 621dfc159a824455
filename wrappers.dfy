/** Option and result datatypes used across the model. */
module Wrappers {

  /** An optional value: a repository lookup that may find nothing. */
  datatype Option<+T> = None | Some(value: T)

  /** A value or the error that the service raises instead of returning one. */
  datatype Result<+R, +E> = Success(value: R) | Failure(error: E)

  /** The outcome of an operation that returns nothing on success. */
  datatype Outcome<+E> = Pass | Fail(error: E)
}
