/** Success/failure values standing in for the exceptions the modelled code raises. */
module Wrappers {

  /** A computation that either yields a value or fails with an error. */
  datatype Result<+T, +E> = Success(value: T) | Failure(error: E)

  /** A computation with no value that either passes or fails with an error. */
  datatype Outcome<+E> = Pass | Fail(error: E)
}
