/** Option and Result values, used where the source returns `None` or raises. */
module Wrappers {

  datatype Option<+T> = None | Some(value: T)

  /** `Err` stands for a Python exception the source lets propagate. */
  datatype Result<+T> = Ok(value: T) | Err(message: string)
}
