/** Option and Result values used for the optional score and for operations that may raise. */
module Wrappers {

  datatype Option<+T> = None | Some(value: T)

  /** `Err` stands for a Python exception; `message` is its text. */
  datatype Result<+T> = Ok(value: T) | Err(message: string)

}
