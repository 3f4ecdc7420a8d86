/** Option and Result: the stand-ins for Java's null and for thrown exceptions. */
module Wrappers {

  /** A value that may be absent; `None` plays the part of a Java `null`. */
  datatype Option<+T> = None | Some(value: T)

  /** The outcome of an operation that can throw: `Failure` carries the exception's kind. */
  datatype Result<+R, +E> = Success(value: R) | Failure(error: E)
}
