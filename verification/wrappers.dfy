/** Failure-carrying datatypes shared by the codec modules. */
module Wrappers {

  /** A value that may be absent; stands in for Go's nil slices and pointers. */
  datatype Option<+T> = None | Some(value: T)

  /** Either a value or an error; stands in for Go's (value, error) returns. */
  datatype Result<+T, +E> = Ok(value: T) | Err(error: E)
}
