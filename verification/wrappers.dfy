/** Failure-carrying results shared by every container model. */
module Wrappers {

  /** The absent / present outcome of a lookup (an iterator equal to `end()` or not). */
  datatype Option<+T> = None | Some(value: T)

  /** The exceptions the containers can raise; only `at` raises one here. */
  datatype Error = OutOfRange

  /** A value, or the exception the library call would have thrown. */
  datatype Result<+T> = Ok(value: T) | Err(error: Error)
}
