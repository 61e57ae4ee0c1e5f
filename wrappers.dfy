/** Result types used by the codec model. */
module Wrappers {

  /** A value that may be absent; `None` stands for Python's `None`
      and for a step of the decoder that raised. */
  datatype Option<T> = None | Some(value: T)

  /** The outcome of an operation that may stop with an error. */
  datatype Result<T, E> = Ok(value: T) | Err(error: E)
}
