/** Failure-carrying values: an absent Java reference and a thrown exception. */
module Wrappers {

  /** A value that may be absent (a Java `null` result). */
  datatype Option<+T> = None | Some(value: T)

  /** Either a value or the exception that was thrown instead of returning one. */
  datatype Result<+R, +E> = Success(value: R) | Failure(error: E)
}
