/** Option and Result datatypes shared by the modules of this model. */
module Wrappers {

  datatype Option<+T> = None | Some(value: T) {
    /** The wrapped value, or `default` when there is none (JavaScript's default for `undefined`). */
    function GetOr(default: T): T {
      match this
      case Some(v) => v
      case None => default
    }
  }

  /** The outcome of a request: a response value or an error reported to the caller. */
  datatype Result<+R, +E> = Success(value: R) | Failure(error: E)
}
