/** Failure-compatible wrappers shared by every module of the model:
    `Option` for JavaScript's undefined/null and Python's missing keys,
    `Result` and `Outcome` for thrown exceptions. */
module Wrappers {

  datatype Option<+T> = None | Some(value: T) {
    function GetOr(default: T): T {
      match this
      case Some(v) => v
      case None => default
    }
  }

  datatype Result<+T, +E> = Success(value: T) | Failure(error: E)

  datatype Outcome<+E> = Pass | Fail(error: E)
}
