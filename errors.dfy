/** The exceptions the analysis code can raise, and a failure-compatible
    result type that carries them. */
module Errors {

  /** The Python exceptions raised by the core functions. */
  datatype Error =
    | UnpackError        // ValueError: `a, b = ...` on a list that does not have two fields
    | EmptySeparator     // ValueError: str.split("") (empty separator)
    | InvalidLiteral     // ValueError: int() of a string that is not a decimal literal
    | KeyError           // a dictionary lookup of a missing key
    | ZeroDivisionError  // `/` with a zero divisor

  /** Either a value or the exception that aborted the computation. */
  datatype Result<+T> = Success(value: T) | Failure(error: Error) {

    predicate IsFailure() {
      Failure?
    }

    function PropagateFailure<U>(): Result<U>
      requires Failure?
    {
      Failure(error)
    }

    function Extract(): T
      requires Success?
    {
      value
    }
  }
}
