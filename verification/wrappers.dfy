/** Option and Result values standing in for Java's null references and
    thrown exceptions. */
module Wrappers {

  /** A value that may be absent, where the Java code uses null. */
  datatype Option<+T> = None | Some(value: T)

  /** Either a computed value or the exception the Java code throws instead. */
  datatype Result<+T, +E> = Success(value: T) | Failure(error: E)
}
