/** Failure-compatible result types shared by every module of the model. */
module Wrappers {

  /** A value that may be missing: Python's `None` versus a present value. */
  datatype Option<+T> = None | Some(value: T) {
    function GetOr(default: T): T {
      match this
      case Some(v) => v
      case None => default
    }
  }

  /** The outcome of an operation that can raise: `Err` carries the error kind. */
  datatype Result<+T, +E> = Ok(value: T) | Err(error: E)
}
