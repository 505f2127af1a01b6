/** Failure-carrying datatypes used throughout the model. */
module Wrappers {

  /** A value that may be absent. */
  datatype Option<+T> = None | Some(value: T)

  /** Either a value or an error. */
  datatype Result<+T, +E> = Success(value: T) | Failure(error: E)

  /** The outcome of an operation that changes state and returns no value:
      it either passes or fails with an error. */
  datatype Outcome<+E> = Pass | Fail(error: E)
}
