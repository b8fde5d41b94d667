/** Option and Result: the absent value and the raised exception of the Python source. */
module Wrappers {

  datatype Option<+T> = None | Some(value: T)

  /** `Err` stands for an exception that propagates to the caller; `reason` is its message. */
  datatype Result<+T> = Ok(value: T) | Err(reason: string)
}
