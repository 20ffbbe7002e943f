// Small result types shared by the other modules.
module Wrappers {

  // A value that may be absent: Go's (value, false) and nil results.
  datatype Option<+T> = None | Some(value: T)

  // Go's (value, error) results.
  datatype Result<+T, +E> = Ok(value: T) | Err(error: E)
}
