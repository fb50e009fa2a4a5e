/** Option and Result values used for Python's `None` returns and raised exceptions. */
module Wrappers {

  datatype Option<+T> = None | Some(value: T)

  /** `Err` stands for an exception the source raises and does not catch. */
  datatype Result<+T> = Ok(value: T) | Err(error: string)
}
