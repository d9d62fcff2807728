/** Failure-compatible wrappers shared by the whole model. `None` stands for a
    JavaScript `undefined`/`null`, and `Result` for an operation that either
    yields a value or is rejected with an error. */
module Wrappers {

  datatype Option<+T> = None | Some(value: T) {

    /** Returns the value in `Some` or the given default (`??` in JavaScript). */
    function GetOr(default: T): T {
      match this
      case Some(v) => v
      case None => default
    }
  }

  datatype Result<+R, +E> = Success(value: R) | Failure(error: E)
}
