/** Failure-carrying datatypes shared by the other modules. */
module Wrappers {

  /** A value that may be absent, e.g. a field that did not parse as a number. */
  datatype Option<+T> = None | Some(value: T)

  /** The outcome of an operation that may abort with an error. */
  datatype Result<+T, +E> = Ok(value: T) | Err(error: E)
}
