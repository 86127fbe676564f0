/** Failure-carrying values shared by every module: a Python `None` and a
    raised exception both become explicit data here. */
module Wrappers {

  datatype Option<+T> = None | Some(value: T) {
    function GetOr(default: T): T {
      match this
      case Some(v) => v
      case None => default
    }
  }

  /** The exception kinds the modelled code can raise. */
  datatype Error =
    | ValueError(message: string)      // `raise ValueError`, or a failing `int(...)`
    | ZeroDivisionError                // a percentage over an empty player list

  datatype Result<+T> = Success(value: T) | Failure(error: Error)
}
