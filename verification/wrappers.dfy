/** What the services return where the Java code answers `Optional.empty()` or throws. */
module Wrappers {

  /** `Optional<T>`, and a field the Java code may leave null. */
  datatype Option<+T> = None | Some(value: T)

  /** A value or the exception the Java method would have thrown. */
  datatype Result<+R, +E> = Success(value: R) | Failure(error: E)

  /** A check that either passes or throws; it returns nothing on success. */
  datatype Outcome<+E> = Pass | Fail(error: E)
}
