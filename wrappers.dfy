/** Option and Result values shared by the report modules. */
module Wrappers {

  datatype Option<+T> = None | Some(value: T)

  /** `Err` carries what made an operation fail, where the original raises. */
  datatype Result<+T, +E> = Ok(value: T) | Err(error: E)
}
