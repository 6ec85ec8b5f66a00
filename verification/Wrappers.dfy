/** Outcome types shared by every model in this project. */
module Wrappers {

  datatype Option<+T> = None | Some(value: T)

  /** The value a call returns, or the reason it throws. */
  datatype Result<+T, +E> = Ok(value: T) | Err(error: E)
}
