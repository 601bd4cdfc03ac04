/** Outcomes of the client's operations: a value, or one of the errors the client raises. */
module Outcomes {

  datatype Error =
    /** The operation is not offered by a client whose terminator is two bytes long. */
    | UnsupportedOperation(reason: string)
    /** The stream holds no adjacent CR LF pair: the client's read loop never returns here. */
    | NoTerminator

  /** A value, or the error that replaced it. */
  datatype Result<+T> = Ok(value: T) | Err(error: Error)

  /** A value that may be absent, such as an unset property. */
  datatype Option<+T> = None | Some(value: T)

  /** Success without a value, or an error. */
  datatype Outcome = Pass | Fail(error: Error)
}
