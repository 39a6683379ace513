/** Option and Result, used for files that may be missing and for operations that may fail. */
module Wrappers {

  /** A value that may be absent: a file that does not exist, an argument that was not passed. */
  datatype Option<+T> = None | Some(value: T) {
    function GetOr(default: T): T {
      match this
      case Some(v) => v
      case None => default
    }
  }

  /** The outcome of an operation that either yields a value or fails with an error. */
  datatype Result<+R, +E> = Success(value: R) | Failure(error: E)
}
