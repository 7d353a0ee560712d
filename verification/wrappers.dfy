/** Option and Result values standing in for Java's null / Optional and for exceptions. */
module Wrappers {

  /** A value that may be absent: a nullable field, an `Optional`, a `Map.get` miss. */
  datatype Option<+T> = None | Some(value: T) {

    /** The wrapped value, or `default` when absent. */
    function GetOr(default: T): T {
      match this
      case Some(v) => v
      case None => default
    }
  }

  /** Either a computed value or the failure that replaced it (a thrown exception in the source). */
  datatype Result<+R, +E> = Success(value: R) | Failure(error: E)

  /** A check that either passes or fails with an error, and computes nothing. */
  datatype Outcome<+E> = Pass | Fail(error: E)
}
