/** The two failure-carrying types every other module uses. */
module Wrappers {

  /** A value that may be absent. */
  datatype Option<+T> = None | Some(value: T)

  /** A value, or the error that stands in its place. */
  datatype Result<+T, +E> = Ok(value: T) | Err(error: E)
}
