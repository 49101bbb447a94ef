/** Option and Result datatypes used for the contact book's absent values
    (Python's `None`) and raised exceptions. */
module Wrappers {

  /** An absent value (`None`) or a present one. */
  datatype Option<+T> = None | Some(value: T)

  /** The outcome of an operation that may raise: a value, or the error it raised. */
  datatype Result<+T, +E> = Ok(value: T) | Err(error: E)
}
