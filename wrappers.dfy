/** Failure-carrying results, standing in for Python's `None` returns and raised exceptions. */
module Wrappers {

  datatype Option<+T> = None | Some(value: T)

  /** `Err(message)` models a raised `ValueError` (or another exception) with its message. */
  datatype Result<+T> = Ok(value: T) | Err(message: string)
}
