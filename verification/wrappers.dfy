/** Failure-compatible result types used in place of PHP's exceptions and `false` returns. */
module Wrappers {

  /** A value that may be absent: a missing file, an unset cookie, a line without a record. */
  datatype Option<+T> = None | Some(value: T) {

    /** The carried value, or `default` when there is none. */
    function GetOr(default: T): T {
      match this
      case Some(v) => v
      case None => default
    }
  }

  /** The outcome of an operation that either produces a value or fails with a reason. */
  datatype Result<+R, +E> = Success(value: R) | Failure(error: E)
}
