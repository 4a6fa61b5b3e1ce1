/** Failure-carrying values used for the Java exceptions of the modelled code. */
module Wrappers {

  datatype Option<+T> = None | Some(value: T)

  datatype Result<+R, +E> = Success(value: R) | Failure(error: E)

  /** A check that either passes or fails with an error, for `void` methods that may throw. */
  datatype Outcome<+E> = Pass | Fail(error: E)
}
