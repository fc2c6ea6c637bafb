/** Optional values and results with an error, used across the model. */
module Wrappers {

  /** A value that may be missing (Python's `None` or a value). */
  datatype Option<+T> = None | Some(value: T)

  /** The outcome of an operation that may fail with an error value. */
  datatype Result<+R, +E> = Ok(value: R) | Err(error: E)
}
