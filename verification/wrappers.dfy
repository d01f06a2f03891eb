/** The absent value and the success-or-error value used throughout the model. */
module Wrappers {

  /** A value that may be missing: an unset header or environment variable, an omitted file. */
  datatype Option<+T> = None | Some(value: T)

  /** The outcome of an operation that can fail with an error of type E. */
  datatype Result<+T, +E> = Ok(value: T) | Err(error: E)
}
