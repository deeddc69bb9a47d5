/** Failure-carrying datatypes shared by the rest of the model. */
module Wrappers {

  /** An optional value: Python's `None` or a present value. */
  datatype Option<+T> = None | Some(value: T)

  /** The outcome of an operation that either yields a value or an error message. */
  datatype Result<+T> = Ok(value: T) | Err(message: string)
}
