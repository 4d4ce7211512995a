/** Failure-carrying values shared by the modules of the model. */
module Wrappers {

  /** A value that may be missing, like a Python local that was never bound or a `None`. */
  datatype Option<+T> = None | Some(value: T)

  /** The outcome of an operation that can raise: a value, or the error it raised. */
  datatype Result<+T, +E> = Ok(value: T) | Err(error: E)
}
