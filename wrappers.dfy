/** Option and Result: the model's stand-ins for C#'s null references, nullable values and thrown exceptions. */
module Wrappers {

  /** A value that may be missing: `None` stands for a null reference or an unset `Nullable<T>`. */
  datatype Option<+T> = None | Some(value: T)

  /** The outcome of an operation that either returns a value or throws: `Failure` carries the exception's kind. */
  datatype Result<+T, +E> = Success(value: T) | Failure(error: E)

  /** The .NET exception types the modelled code throws. */
  datatype Exception =
    | ArgumentException
    | ArgumentNullException
    | ArgumentOutOfRangeException
    | InvalidOperationException
    | NotSupportedException
    | NullReferenceException
    | ObjectDisposedException
    | OverflowException
}
