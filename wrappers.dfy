/** Option and Result values shared by every module of the model. */
module Wrappers {

  datatype Option<+T> = None | Some(value: T)

  /** The outcome of an operation that either succeeds with a value or
      fails with an error (a thrown exception or an error return in the source). */
  datatype Result<+T, +E> = Ok(value: T) | Err(error: E)
}
