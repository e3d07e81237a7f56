/** Option and Result values used for the parsers' failure paths. */
module Wrappers {

  /** A value that may be missing: Go's nil IP, a missing index. */
  datatype Option<+T> = None | Some(value: T)

  /** Either a value or the error the operation reports instead. */
  datatype Result<+R, +E> = Ok(value: R) | Err(error: E)
}
