/** Option, Result and Outcome: the values that stand for C#'s nullable
    references and for the exceptions the services throw. */
module Wrappers {

  datatype Option<+T> = None | Some(value: T) {
    /** `x ?? fallback` */
    function GetOr(fallback: T): T {
      match this
      case Some(v) => v
      case None => fallback
    }
  }

  datatype Result<+R, +E> = Success(value: R) | Failure(error: E)

  datatype Outcome<+E> = Pass | Fail(error: E)
}
