/** The `Option` and `Result` wrappers and the exceptions the loader raises. */
module Base {

  datatype Option<T> = None | Some(value: T)

  /** The Python exception classes the table utilities raise, with their argument. */
  datatype Error =
    | KeyError(arg: string)
    | ValueError(message: string)
    | IndexError
    | Exception(message: string)
    | DatabaseError(message: string)

  /** A value, or the exception that aborted the computation. */
  datatype Result<T> = Success(value: T) | Failure(error: Error)

  /** Either nothing happened, or an exception was raised. */
  datatype Outcome = Pass | Fail(error: Error)
}
