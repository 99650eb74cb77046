/** Failure-compatible result types for the error paths of the modelled programs.
    Python exceptions become `Err` values carrying the exception kind and message. */
module Wrappers {

  datatype Option<+T> = None | Some(value: T)

  /** The exception kinds the modelled code raises. */
  datatype Error =
    | ValueError(message: string)
    | TypeError(message: string)
    | NameError(message: string)

  datatype Result<+T> = Ok(value: T) | Err(error: Error) {
    predicate IsFailure() {
      Err?
    }

    function PropagateFailure<U>(): Result<U>
      requires Err?
    {
      Err(error)
    }

    function Extract(): T
      requires Ok?
    {
      value
    }
  }
}
