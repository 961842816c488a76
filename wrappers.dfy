/** Optional values and results with an error, as used by the rest of the model. */
module Wrappers {

  /** A value that may be absent; stands for Python's `None` and SQL's NULL. */
  datatype Option<+T> = None | Some(value: T)

  /** The outcome of an operation that can fail with an error of type E. */
  datatype Result<+T, +E> = Ok(value: T) | Err(error: E)
}
