/** Result types shared by the model's modules. */
module Wrappers {

  /** A value that may be absent. */
  datatype Option<+T> = None | Some(value: T)

  /** The outcome of an operation that the program may report as failed. */
  datatype Result<+T> = Ok(value: T) | Err(error: string)
}
