/** The application's error type (`AppError` of src/utils/errors, thrown by the services). */
module Errors {

  /** An error the services throw on purpose: an HTTP status code and a message for the caller. */
  datatype AppError = AppError(message: string, statusCode: int)

  /** What a service call produces: its value, or the AppError it throws. */
  datatype Result<+T> = Ok(value: T) | Fail(error: AppError)
}
