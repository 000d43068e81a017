/** Option and Result types shared by the other modules. */
module Wrappers {

  datatype Option<+T> = None | Some(value: T)

  /** The outcome of an operation that the source lets throw or exit early. */
  datatype Result<+T, +E> = Success(value: T) | Failure(error: E)
}
