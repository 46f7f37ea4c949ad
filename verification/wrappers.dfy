/** Failure-carrying datatypes used in place of null references and thrown exceptions. */
module Wrappers {

  /** A value that may be absent; `None` stands for a C# `null`. */
  datatype Option<+T> = None | Some(value: T)

  /** The outcome of an operation that either returns a value or throws an error. */
  datatype Result<+R, +E> = Success(value: R) | Failure(error: E)
}
