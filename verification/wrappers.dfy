/** Small failure-carrying datatypes used in place of Java's null and exceptions. */
module Wrappers {

  /** A value that may be absent; None plays the part of a Java null. */
  datatype Option<+T> = None | Some(value: T)

  /** The outcome of an operation that either returns a value or throws. */
  datatype Result<+T, +E> = Success(value: T) | Failure(error: E)
}
