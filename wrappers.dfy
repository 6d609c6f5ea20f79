/** Option and Result, the two failure-carrying shapes the model needs. */
module Wrappers {

  /** An identifier field that may be empty: an empty C string is `None`. */
  datatype Option<+T> = None | Some(value: T)

  /** The outcome of an operation that can fail with an error of type `E`. */
  datatype Result<+T, +E> = Ok(value: T) | Err(error: E)
}
