/** Option, Result and Outcome values shared by the other modules. */
module Wrappers {

  datatype Option<+T> = None | Some(value: T)

  /** The value an operation produces, or the error it reports. */
  datatype Result<+T, +E> = Ok(value: T) | Err(error: E)

  /** The success or failure of an operation that produces no value. */
  datatype Outcome<+E> = Pass | Fail(error: E)
}
