/** The ways a GC calculation can stop without producing a series. */
module Errors {

  /** `WrongWindowSize` and `WrongStep` are the messages the script prints
      before exiting; `ZeroDivision` is the arithmetic exception a ratio
      function raises on a degenerate window. */
  datatype Error = WrongWindowSize | WrongStep | ZeroDivision {

    /** The text shown to the user. */
    function Message(): string
    {
      match this
      case WrongWindowSize => "Wrong window size"
      case WrongStep => "Wrong step"
      case ZeroDivision => "division by zero"
    }
  }
}
