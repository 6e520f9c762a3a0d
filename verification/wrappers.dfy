/** Plain Option and Result datatypes shared by every module of the model. */
module Wrappers {

  /** A value that may be absent: a null pointer, a missing map entry, a panic. */
  datatype Option<+T> = None | Some(value: T)

  /** The outcome of an operation that can fail with an error value. */
  datatype Result<+T, +E> = Ok(value: T) | Err(error: E)
}
