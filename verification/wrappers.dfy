/** Optional values and results with a failure value, for the thrown errors of the port core. */
module Wrappers {

  /**
   * A value that may be absent (`undefined` / `null` in JavaScript). For a
   * parameter with a default value, `None` means the argument was omitted.
   */
  datatype Option<+T> = None | Some(value: T) {

    /** The contained value, or `default` when absent (a JavaScript default parameter). */
    function GetOr(default: T): T {
      match this
      case Some(v) => v
      case None => default
    }
  }

  /** The outcome of an operation that may throw: a value, or the error it throws. */
  datatype Result<+T, +E> = Ok(value: T) | Err(error: E)
}
