/** Failure-carrying wrappers used in place of Java's `null` and exceptions. */
module Wrappers {

  /** `None` stands for a Java `null` result. */
  datatype Option<+T> = None | Some(value: T)

  /** `Failure` stands for an exception that aborts an operation. */
  datatype Result<+R, +E> = Success(value: R) | Failure(error: E)
}
