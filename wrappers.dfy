/** Failure-carrying values used throughout the model: `Option` for a JavaScript value
    that may be `null`/`undefined`, `Result` for an operation that may throw. */
module Wrappers {

  datatype Option<+T> = None | Some(value: T) {

    /** The wrapped value, or `default` when absent (JavaScript's `x ?? default`). */
    function GetOr(default: T): T {
      match this
      case Some(v) => v
      case None => default
    }
  }

  /** `Failure(message)` stands for an `Error` thrown with that message. */
  datatype Result<+R> = Success(value: R) | Failure(message: string)
}
