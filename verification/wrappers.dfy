/** Optional values and success/failure results, standing in for Ruby's `nil`
    and for the exceptions the program raises. */
module Wrappers {

  /** A value that may be absent (Ruby `nil`). */
  datatype Option<+T> = None | Some(value: T) {

    /** The wrapped value, or `default` when absent (Ruby `x || default`). */
    function GetOr(default: T): T {
      match this
      case Some(v) => v
      case None => default
    }
  }

  /** The outcome of an operation that may raise: a value, or the message of
      the error it would raise. */
  datatype Result<+T> = Success(value: T) | Failure(error: string)

  /** Ruby string interpolation of an optional value: `nil` renders as "". */
  function Interp(s: Option<string>): string {
    s.GetOr("")
  }
}
