/** The two failure-carrying shapes shared by every module of the project. */
module Wrappers {

  /** A value that may be missing. */
  datatype Option<+T> = None | Some(value: T)

  /** A success value or an error value. */
  datatype Result<+R, +E> = Ok(value: R) | Err(error: E)
}
