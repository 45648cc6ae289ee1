/** Failure-carrying values shared by the other modules. */
module Wrappers {

  /** A value that may be absent: a missing registry key or value, an unset environment variable. */
  datatype Option<+T> = None | Some(value: T)

  /** A value or the reason the program stopped instead of producing it. */
  datatype Result<+T, +E> = Ok(value: T) | Err(error: E)
}
