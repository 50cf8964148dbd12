// Option and Result values used for the Java null returns and exceptions.
module Wrappers {
  datatype Option<T> = None | Some(value: T)

  /** The outcome of an operation that the Java code may abandon with an exception. */
  datatype Result<T> = Ok(value: T) | Err(error: string)
}
