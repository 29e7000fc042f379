/** Optional values and error results shared by the three game and search modules. */
module Wrappers {

  /** A value that may be absent: Python's `None` or a present value. */
  datatype Option<+T> = None | Some(value: T)

  /** The outcome of an operation that raises on bad input, as `result` does. */
  datatype Result<+T, +E> = Ok(value: T) | Err(error: E)
}
