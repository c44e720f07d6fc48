/**
 * src/middleware/errorHandlers.ts: the answers for unknown routes and for thrown errors.
 */
module ErrorHandlers {
  import opened Errors

  /** What reached the handler: an AppError, or any other error with its own message. */
  datatype Failure = Known(error: AppError) | Unexpected(message: string)

  /** The HTTP answer, and whether the error was written to the log. */
  datatype Reply = Reply(status: int, message: string, logged: bool)

  /** `notFoundHandler`: the request (here its path) plays no part. */
  function NotFoundHandler(path: string): (r: Reply)
    ensures r.status == 404 && !r.logged
  {
    Reply(404, "Resource not found", false)
  }

  /** Every unknown route gets the same answer. */
  lemma NotFoundUniform(a: string, b: string)
    ensures NotFoundHandler(a) == NotFoundHandler(b) == Reply(404, "Resource not found", false)
  {
  }

  /** `errorHandler` */
  function ErrorHandler(err: Failure): (r: Reply)
    ensures err.Known? ==> r.status == err.error.statusCode && r.message == err.error.message
    ensures err.Known? ==> (r.logged <==> err.error.statusCode >= 500)
    ensures err.Unexpected? ==> r.status == 500 && r.logged
  {
    match err
    case Known(e) => Reply(e.statusCode, e.message, e.statusCode >= 500)
    case Unexpected(_) => Reply(500, "Unexpected error occurred", true)
  }

  /** The message of an error that is not an AppError never reaches the client. */
  lemma UnexpectedMessageHidden(m1: string, m2: string)
    ensures ErrorHandler(Unexpected(m1)) == ErrorHandler(Unexpected(m2))
    ensures ErrorHandler(Unexpected(m1)).message == "Unexpected error occurred"
  {
  }

  /** A service failure reaches the client as it was thrown: the AppError can be read back off the reply. */
  lemma KnownRoundTrip(e: AppError)
    ensures var r := ErrorHandler(Known(e)); AppError(r.message, r.status) == e
  {
  }
}
