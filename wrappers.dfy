/** Optional values and results with an error, used for Java's null and exceptions. */
module Wrappers {

  /** A value that may be absent (Java `null`). */
  datatype Option<+T> = None | Some(value: T)

  /** An operation that either returns a value or throws the given error. */
  datatype Result<+T, +E> = Success(value: T) | Failure(error: E)
}
