/** The optional-value and outcome datatypes shared by the other modules. */
module Wrappers {
  datatype Option<+T> = None | Some(value: T)

  /** A source function that may raise: its value, or the error it raises. */
  datatype Result<+T> = Ok(value: T) | Err(message: string)
}
