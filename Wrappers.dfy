/** Failure-carrying values shared by the rest of the model: Java's `null`
    becomes `None`, and the exceptions the source throws become `Error`
    values carried by `Result` and `Outcome`. */
module Wrappers {

  /** A nullable Java reference. */
  datatype Option<+T> = None | Some(value: T)

  /** The unchecked exceptions thrown by the modelled code, with their
      messages; `NullDereference` is the `NullPointerException` the JVM
      raises on a call through a null reference, whose message the model
      does not fix. */
  datatype Error =
    | IllegalArgument(message: string)
    | NullPointer(message: string)
    | IllegalState(message: string)
    | NullDereference

  /** A value, or the exception thrown instead of returning it. */
  datatype Result<+T> = Success(value: T) | Failure(error: Error)

  /** Normal completion of a `void` method, or the exception it threw. */
  datatype Outcome = Pass | Fail(error: Error)
}
