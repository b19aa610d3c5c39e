/** Option and Result values standing for Java's null and thrown exceptions. */
module Wrappers {

  /** A value that may be missing (Java `null`). */
  datatype Option<+T> = None | Some(value: T)

  /** A computed value, or the exception that interrupted the computation. */
  datatype Result<+T, +E> = Success(value: T) | Failure(error: E)

  /** The outcome of a `void` Java method: it returned, or it threw. */
  datatype Outcome<+E> = Pass | Fail(error: E)
}
