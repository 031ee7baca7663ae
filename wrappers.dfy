/** Failure-compatible return types shared by the whole model. */
module Wrappers {

  datatype Option<+T> = None | Some(value: T)

  /** A computation that either yields a value or fails with a message, as a
      thrown `Error` does in the modelled code. */
  datatype Result<+T> = Ok(value: T) | Err(message: string)
}
