/** The failure-carrying datatypes shared by every model in this project. */
module Wrappers {

  /** A value that may be absent: the null, None and missing key of the source languages. */
  datatype Option<+T> = None | Some(value: T)

  /** The outcome of an operation that may raise or return an error. */
  datatype Result<+T, +E> = Ok(value: T) | Err(error: E)
}
