/** Wrappers used across the model: a nullable value,
    a value-or-error, and an error-or-nothing. */
module Wrappers {

  /** A C# nullable reference: None stands for null. */
  datatype Option<+T> = None | Some(value: T)

  /** The value an operation returns, or the exception it throws. */
  datatype Result<+T, +E> = Success(value: T) | Failure(error: E)

  /** An operation that returns nothing, or the exception it throws. */
  datatype Outcome<+E> = Pass | Fail(error: E)
}
