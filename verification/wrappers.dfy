/** Optional values and outcomes shared by the rest of the model. */
module Wrappers {

  /** An optional value: JavaScript's `undefined` is `None`. */
  datatype Option<+T> = None | Some(value: T) {

    /** The wrapped value, or `default` when there is none. */
    function GetOr(default: T): (r: T) {
      match this
      case Some(v) => v
      case None => default
    }
  }

  /** The outcome of an operation that either returns or throws. */
  datatype Result<+R, +E> = Success(value: R) | Failure(error: E)
}
