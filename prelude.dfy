/** Optional values and error outcomes shared by the whole model. */
module Prelude {

  /** Python's `None` or a present value. */
  datatype Option<+T> = None | Some(value: T)

  /** The outcome of a step that can abort with a message (a raised exception). */
  datatype Result<+T> = Ok(value: T) | Err(message: string)
}
