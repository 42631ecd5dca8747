/** Option and Result, the two wrappers the model uses for Java's `null`
    and for Java's exceptions. */
module Wrappers {

  /** `None` stands for a Java `null` reference. */
  datatype Option<+T> = None | Some(value: T)

  /** `Failure` stands for an exception thrown out of a call. */
  datatype Result<+T, +E> = Success(value: T) | Failure(error: E)
}
