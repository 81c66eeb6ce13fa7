/** Option and Result, standing for Java's nullable references and thrown exceptions. */
module Wrappers {

  /** A nullable value: None is Java's null. */
  datatype Option<+T> = None | Some(value: T)

  /** The outcome of a call that may throw: Err carries what was thrown. */
  datatype Result<+T, +E> = Ok(value: T) | Err(error: E)
}
