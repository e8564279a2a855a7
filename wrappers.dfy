/** Failure-compatible wrappers used across the model. */
module Wrappers {

  /** An optional value; PHP's `null` is `None`. */
  datatype Option<+T> = None | Some(value: T) {

    /** The wrapped value, or `default` when there is none (PHP's `??`). */
    function GetOr(default: T): T {
      match this
      case Some(v) => v
      case None => default
    }
  }

  /** A value or an error; an exception carrying a message is `Failure(message)`. */
  datatype Result<+R, +E> = Success(value: R) | Failure(error: E)
}
