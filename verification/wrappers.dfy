/** Failure-compatible wrappers shared by every module of the model. */
module Wrappers {

  /** A value that may be absent: C#'s nullable references and `FirstOrDefault`,
      JavaScript's `null`. */
  datatype Option<+T> = None | Some(value: T) {

    /** The value, or `default` when absent (C#'s `??`, JavaScript's `||` on objects). */
    function GetOr(default: T): T {
      match this
      case Some(v) => v
      case None => default
    }
  }

  /** The outcome of an operation that either produces a value or reports an error message. */
  datatype Result<+T> = Ok(value: T) | Err(message: string)
}
