/** Return values standing for a reference that may be null and for an exception that may be thrown. */
module Results {

  /** A value or its absence; stands for a nullable Java reference. */
  datatype Option<+T> = None | Some(value: T)

  /** A value, or the exception the Java code would have thrown instead. */
  datatype Result<+T, +E> = Success(value: T) | Failure(error: E)

  /** The outcome of a void Java method: it returned normally or threw. */
  datatype Outcome<+E> = Pass | Fail(error: E)
}
