/** Failure-carrying datatypes used in place of Java's null and exceptions. */
module Wrappers {

  /** A Java reference that may be null. */
  datatype Option<+T> = None | Some(value: T)

  /** The outcome of a Java call that either returns a value or throws. */
  datatype Result<+R, +E> = Success(value: R) | Failure(error: E)

  /** The outcome of a Java call whose return value is not modelled, but which may throw. */
  datatype Outcome<+E> = Pass | Fail(error: E)
}
