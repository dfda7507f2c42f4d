/** Optional values and results with an error, the two shapes Python's
    `None` and raised exceptions take in this model. */
module Wrappers {

  /** A value that may be missing: Python's `None`, or JSON `null`. */
  datatype Option<+T> = None | Some(value: T) {

    /** The wrapped value, or `default` when there is none. */
    function GetOr(default: T): T {
      match this
      case Some(v) => v
      case None => default
    }
  }

  /** The outcome of an operation that may raise. */
  datatype Result<+T, +E> = Ok(value: T) | Err(error: E)

  function Min(a: int, b: int): int {
    if a <= b then a else b
  }
}
