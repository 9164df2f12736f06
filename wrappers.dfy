/** Nullable values and exception-or-value results, as used by every other module. */
module Wrappers {

  /** A C# reference that may be null: `None` stands for null. */
  datatype Option<+T> = None | Some(value: T)

  /** The outcome of a call that either returns a value or throws. */
  datatype Result<+R, +E> = Success(value: R) | Failure(error: E)

  /** `System.ArgumentNullException`, carrying the offending parameter's name. */
  datatype ArgumentNullException = ArgumentNullException(paramName: string)
}
