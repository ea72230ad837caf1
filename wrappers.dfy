/** Optional values and success/failure results, standing in for the
    `undefined`/`null` values and thrown errors of the TypeScript program. */
module Wrappers {

  /** A value that may be absent (`undefined` or `null`). */
  datatype Option<+T> = None | Some(value: T) {
    function GetOr(default: T): T {
      match this
      case Some(v) => v
      case None => default
    }
  }

  /** A computation that either returns a value or throws an error. */
  datatype Result<+R, +E> = Success(value: R) | Failure(error: E)
}
