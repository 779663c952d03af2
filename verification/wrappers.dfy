/** Failure-compatible wrappers shared by the other modules. */
module Wrappers {

  /** A value that may be absent: Python's `None` or a present value. */
  datatype Option<+T> = None | Some(value: T) {

    /** The present value, or `default` when absent (`dict.get(key, default)`). */
    function GetOr(default: T): T {
      match this
      case Some(v) => v
      case None => default
    }
  }

  /** The outcome of a step that can end the run with an error. */
  datatype Result<+R, +E> = Success(value: R) | Failure(error: E)
}
