/** Failure-compatible result types shared by every module, and the kinds of
    exception the modelled Python code raises. */
module Wrappers {

  datatype Option<+T> = None | Some(value: T)

  /** The Python exceptions that the modelled code raises or lets through. */
  datatype Error =
    | KeyError(key: string)
    | ValueError(reason: string)
    | TypeError(reason: string)
    | FileNotFound(path: string)
    | RuntimeError(reason: string)
    | AssertionError(reason: string)
    | AttributeError(reason: string)
    | RecursionError
    | ValidationError(failure: ValidationFailure)

  /** What a prompt validator objected to; the message text itself is formatting. */
  datatype ValidationFailure =
    | BadFormat
    | TooShort(minimum: int, actual: nat)
    | TooLong(maximum: int, actual: nat)
    | TooFewItems(minimum: int, actual: nat)
    | TooManyItems(maximum: int, actual: nat)
    | ItemTooShort(minimum: int, actual: nat, item: string)
    | ItemTooLong(maximum: int, actual: nat, item: string)
    | DuplicatedItem(item: string)
    | InvalidLicence(text: string, cursorPosition: nat)

  datatype Result<+T> = Ok(value: T) | Err(error: Error) {
    predicate IsFailure() { Err? }
    function PropagateFailure<U>(): Result<U>
      requires Err?
    {
      Err(error)
    }
    function Extract(): T
      requires Ok?
    {
      value
    }
  }

  /** The outcome of an operation that returns nothing or raises. */
  datatype Outcome = Pass | Fail(error: Error) {
    predicate IsFailure() { Fail? }
    function PropagateFailure(): Outcome
      requires Fail?
    {
      this
    }
  }
}
