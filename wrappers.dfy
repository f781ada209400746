/** Option and Result, for the library calls that can fail and for the
    errors that end a run of the script. */
module Wrappers {
  datatype Option<+T> = None | Some(value: T)

  datatype Result<+R, +E> = Ok(value: R) | Err(error: E)
}
