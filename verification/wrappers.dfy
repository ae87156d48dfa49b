/** `Option` and `Result`, shared by the whole model. */
module Wrappers {

  /** Python's `None` or a present value. */
  datatype Option<+T> = None | Some(value: T)

  /** The outcome of an argument check: a parsed request, or the reply sent instead. */
  datatype Result<+T, +E> = Ok(value: T) | Err(error: E)
}
