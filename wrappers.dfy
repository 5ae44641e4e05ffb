/** Failure-carrying return values shared by the whole model. */
module Wrappers {

  /** A value that may be missing (Python's `None`). */
  datatype Option<+T> = None | Some(value: T) {
    function GetOr(default: T): T {
      match this
      case Some(v) => v
      case None => default
    }
  }

  /** The outcome of an operation that may raise: the error carries the
      store's error reply or the Python exception name. */
  datatype Result<+T> = Ok(value: T) | Err(error: string)
}
