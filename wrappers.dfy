/** Failure-carrying result types shared by the modules of this model. */
module Wrappers {

  datatype Option<+T> = None | Some(value: T)

  /** The outcome of an operation that can throw: a value, or the exception's message. */
  datatype Result<+T> = Ok(value: T) | Err(message: string)
}
