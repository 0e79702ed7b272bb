/** The Option and Result datatypes shared by the model's modules. */
module Wrappers {

  /** A value that may be absent, like Python's `None`. */
  datatype Option<T> = None | Some(value: T)

  /** The outcome of an operation that can raise an exception. */
  datatype Result<T, E> = Success(value: T) | Failure(error: E)
}
