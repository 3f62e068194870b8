/** Failure-style result types shared by every module. */
module Wrappers {
  datatype Option<+T> = None | Some(value: T)

  /** Only success or failure is kept of an error, not its payload. */
  datatype Result<+T> = Ok(value: T) | Err
}
