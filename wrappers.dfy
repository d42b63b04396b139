/** Optional values and error results shared by every module of the model. */
module Wrappers {

  /** A value that may be missing (`undefined` on the JavaScript side, `None` on the Python side). */
  datatype Option<T> = None | Some(value: T)

  /** The value a function returns, or the exception it raises instead. */
  datatype Result<T, E> = Ok(value: T) | Err(error: E)
}
