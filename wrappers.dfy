/** Option and Result, the two failure-carrying datatypes the model uses. */
module Wrappers {

  datatype Option<+T> = None | Some(value: T)

  /** The outcome of an operation that the source either completes or aborts by throwing. */
  datatype Result<+T, +E> = Success(value: T) | Failure(error: E)
}
