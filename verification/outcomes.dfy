/** Small failure-carrying datatypes shared by the other modules. */
module Outcomes {

  /** A value that may be absent (the model of a possibly-null pointer or a failed lookup). */
  datatype Option<+T> = None | Some(value: T)

  /** Either a value or the reason it could not be produced. */
  datatype Result<+T, +E> = Ok(value: T) | Err(error: E)
}
