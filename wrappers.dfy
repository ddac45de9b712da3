/** Optional values and fallible results shared by the client and server models. */
module Wrappers {

  /** `undefined` / `null` on the TypeScript side. */
  datatype Option<+T> = None | Some(value: T) {

    /** The value, or `default` when there is none: TypeScript's `x ?? default`. */
    function GetOr(default: T): T {
      match this
      case Some(v) => v
      case None => default
    }
  }

  /** A promise that either resolves with a value or rejects with an error. */
  datatype Result<+R, +E> = Success(value: R) | Failure(error: E)
}
