/** Optional values and error-carrying results, used wherever the JavaScript
    code tests for `undefined`/`null` or throws an `Error`. */
module Wrappers {

  /** A value that may be absent (`undefined` or `null` in the source). */
  datatype Option<+T> = None | Some(value: T) {

    /** The held value, or `default` when absent. */
    function GetOr(default: T): T {
      match this
      case Some(v) => v
      case None => default
    }
  }

  /** The outcome of an operation that either succeeds or throws. */
  datatype Result<+R, +E> = Ok(value: R) | Err(error: E)
}
