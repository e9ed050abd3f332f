/**
 * Failure-carrying results shared by every module: `Option` models a value
 * that may be JavaScript's `undefined`, `Result` models a value or a thrown
 * exception, and `JsError` names the exception classes the code throws.
 */
module Wrappers {

  datatype Option<+T> = None | Some(value: T)

  /** The JavaScript error classes the modelled code throws, with their messages. */
  datatype JsError =
    | SyntaxError(message: string)
    | RangeError(message: string)
    | TypeError(message: string)
    | ReferenceError(message: string)
    | PlainError(message: string)

  datatype Result<+T> = Ok(value: T) | Err(error: JsError) {
    predicate IsFailure() { Err? }

    function PropagateFailure<U>(): Result<U>
      requires Err?
    {
      Err(error)
    }

    function Extract(): T
      requires Ok?
    {
      value
    }
  }
}
