/** Optional values and results with an error, standing in for Python's
    nullable values and raised exceptions. */
module Wrappers {

  /** A value that may be absent (`None` in Python, a NULL column). */
  datatype Option<+T> = None | Some(value: T)

  /** A value, or the error a Python call would have raised instead. */
  datatype Result<+T, +E> = Ok(value: T) | Err(error: E)
}
