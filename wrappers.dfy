/** Optional arguments and results that may carry an error. */
module Wrappers {

  /** An argument the caller may leave out (Python's default `None`). */
  datatype Option<+T> = None | Some(value: T)

  /** Either a value or the error the routine raises instead. */
  datatype Result<+T, +E> = Ok(value: T) | Err(error: E)
}
