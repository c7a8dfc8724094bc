/** Failure-carrying wrappers shared by every module of the model. */
module Wrappers {

  /** A value that may be absent (a C++ end() iterator, a Python None). */
  datatype Option<+T> = None | Some(value: T)

  /** A value or the error the source raises or aborts with instead. */
  datatype Result<+T, +E> = Ok(value: T) | Err(error: E)
}
