/** Option and Result datatypes used for the source's null returns and exceptions. */
module Wrappers {

  datatype Option<+T> = None | Some(value: T)

  /** The kinds of failure the modelled operations can raise. */
  datatype Error = IoError | LengthError

  datatype Result<+T> = Ok(value: T) | Err(error: Error)
}
