/** Optional values and the failure a Python expression can raise. */
module Wrappers {

  /** A value that may be Python's `None`. */
  datatype Option<+T> = None | Some(value: T)

  /** The result of a computation that can raise: concatenating `None` to a
      string raises `TypeError` in Python. */
  datatype Result<+T> = Ok(value: T) | TypeError
}
