/** Small value types shared by the GitGrab model. */
module Basics {

  /** An optional value: a Tk tree item either carries a path in its `values` or carries none. */
  datatype Option<+T> = None | Some(value: T)

  /** The outcome of an operation that the application can refuse with a reported error. */
  datatype Result<+T, +E> = Ok(value: T) | Err(error: E)
}
