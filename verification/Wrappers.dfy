/** Values that may be missing, and results that carry an error code instead. */
module Wrappers {
  datatype Option<+T> = None | Some(value: T)

  datatype Result<+T> = Ok(value: T) | Err(code: int)
}
