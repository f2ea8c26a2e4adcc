/** Failure-compatible result types standing for Java's null returns and exceptions. */
module Wrappers {

  /** A value or nothing: `None` stands for a Java `null`. */
  datatype Option<+T> = None | Some(value: T) {
    function GetOr(default: T): T {
      match this
      case Some(v) => v
      case None => default
    }
  }

  /** A value, or the exception that would have been thrown instead. */
  datatype Result<+R, +E> = Success(value: R) | Failure(error: E)

  /** Normal completion of a `void` operation, or the exception it threw. */
  datatype Outcome<+E> = Pass | Fail(error: E)
}
