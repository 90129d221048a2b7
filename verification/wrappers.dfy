/** Failure-compatible value types shared by every module of the model. */
module Wrappers {

  /** A value that may be absent, such as a command-line option that was not given. */
  datatype Option<+T> = None | Some(value: T)

  /** Either a computed value or the exception the PHP code would have thrown. */
  datatype Result<+R, +E> = Success(value: R) | Failure(error: E)

  /** The PHP exception classes thrown by the modelled code, with their messages. */
  datatype Exception =
    | InvalidArgumentException(message: string)
    | RuntimeException(message: string)
    | GenericException(message: string)
}
