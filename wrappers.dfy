/** Failure-compatible wrappers shared by the ICO codec and the video encoder models. */
module Wrappers {

  datatype Option<+T> = None | Some(value: T)

  /** The outcome of an operation that the source reports with an exception or a
      false return value. */
  datatype Result<+T, +E> = Ok(value: T) | Err(error: E)
}
