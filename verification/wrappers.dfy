/** Optional values and success/failure results shared by the model's modules. */
module Wrappers {

  /** A value that may be absent: Python's `None` versus a present value. */
  datatype Option<+T> = None | Some(value: T) {

    /** The present value, or `default` when absent (Python's `x or default` on a nullable field). */
    function GetOr(default: T): (r: T) {
      match this
      case Some(v) => v
      case None => default
    }
  }

  /** The outcome of an operation that either succeeds with a value or raises an error. */
  datatype Result<+R, +E> = Success(value: R) | Failure(error: E)
}
