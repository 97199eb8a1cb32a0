/** Option and Result types shared by the model. */
module Wrappers {

  /** A value that may be absent: a regular-expression miss, a failed parse. */
  datatype Option<+T> = None | Some(value: T) {

    /** The value, or `default` when there is none. */
    function GetOr(default: T): T {
      match this
      case Some(v) => v
      case None => default
    }
  }

  /** The outcome of an operation that reports an error instead of panicking. */
  datatype Result<+R, +E> = Success(value: R) | Failure(error: E)
}
