/** Failure-carrying results shared by the other modules. */
module Wrappers {

  /** A value that may be absent, standing for Python's `None`. */
  datatype Option<+T> = None | Some(value: T)

  /** A value or the error the script would raise instead of returning. */
  datatype Result<+T, +E> = Ok(value: T) | Err(error: E)
}
