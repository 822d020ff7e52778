/** Failure values of the anonymizer and the Result wrapper that carries them. */
module Errors {

  /** Each way processing of one file can abort. */
  datatype Error =
    | TruncatedInput                // fewer bytes than a fixed-width read needs
    | MissingField(key: string)     // a required pattern found no match (`.group` on None)
    | MissingDateComponent          // the frame-of-reference value has fewer than 11 dot components
    | MalformedDateToken            // the YYMMDD token is not a valid date
    | NoMeasurements                // a VD container with zero entries leaves `matches` unbound
    | BadReadLength                 // `read(n)` raises for `n` below -1 (ValueError) or of 2^63 or more (OverflowError)
    | BadSeekTarget                 // `seek(p)` raises for a position of 2^63 or more

  datatype Option<+T> = None | Some(value: T)

  datatype Result<+T> = Ok(value: T) | Err(error: Error) {
    predicate IsFailure() { Err? }

    function PropagateFailure<U>(): Result<U>
      requires Err?
    {
      Err(error)
    }

    function Extract(): T
      requires Ok?
    {
      value
    }
  }
}
