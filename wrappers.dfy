/** Option, Result and Outcome: the model's stand-ins for null references,
    out-parameters and thrown exceptions. */
module Wrappers {

  /** A value that may be missing (a C# null). */
  datatype Option<+T> = None | Some(value: T) {
    function GetOr(default: T): T {
      match this
      case Some(v) => v
      case None => default
    }
  }

  /** The value of an operation, or the exception it throws. */
  datatype Result<+R, +E> = Success(value: R) | Failure(error: E)

  /** Success without a value, or the exception thrown. */
  datatype Outcome<+E> = Pass | Fail(error: E)
}
