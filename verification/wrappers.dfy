/** Optional values and results shared by every module of the model. */
module Wrappers {

  /** A value that may be missing: JavaScript's `undefined`/`null` for an optional argument. */
  datatype Option<+T> = None | Some(value: T) {

    /** The wrapped value, or `default` when missing (a parameter default in JavaScript). */
    function GetOr(default: T): T {
      match this
      case Some(v) => v
      case None => default
    }
  }

  /** The outcome of an asynchronous call: it resolves with a value or rejects with a message. */
  datatype Result<+T> = Ok(value: T) | Err(message: string)
}
