/** Outcomes of operations that the modelled programs may abandon by raising an exception. */
module Wrappers {

  /** The exceptions that the modelled code raises, by kind. */
  datatype Error =
    | AssertionError
    | RuntimeError
    | ValueError
    | IndexError
    | TypeError
    | UnexpectedDER
    | SquareRootError
    | UnknownCurveError
    | BadDigestError
    | BadSignatureError
    | IDNABidiError

  datatype Option<+T> = None | Some(value: T)

  datatype Result<+T> = Ok(value: T) | Err(error: Error) {
    predicate IsFailure() {
      Err?
    }

    function PropagateFailure<U>(): Result<U>
      requires Err?
    {
      Err(error)
    }

    function Extract(): T
      requires Ok?
    {
      value
    }
  }

  function Need(condition: bool, error: Error): Result<()> {
    if condition then Ok(()) else Err(error)
  }
}
