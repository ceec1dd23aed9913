/** Option and Result: Python's None and raised exceptions made explicit. */
module Wrappers {

  /** A value that may be missing (Python's `None`, or a key that `dict.get` does not find). */
  datatype Option<+T> = None | Some(value: T) {
    function GetOr(default: T): T {
      match this
      case Some(v) => v
      case None => default
    }
  }

  /** The outcome of a step that may raise. */
  datatype Result<+R, +E> = Success(value: R) | Failure(error: E)
}
