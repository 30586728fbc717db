/**
 * The ways a request can fail in this core: an `HTTPException` raised by a
 * service function, or an error the database raises at commit time.
 */
module Failures {

  /** FastAPI's `HTTPException`: status code, detail text, and whether it
      carries the `WWW-Authenticate: Bearer` challenge header. */
  datatype HttpException = HttpException(statusCode: int, detail: string, bearerChallenge: bool)

  const HTTP_400_BAD_REQUEST := 400
  const HTTP_401_UNAUTHORIZED := 401
  const HTTP_500_INTERNAL_SERVER_ERROR := 500

  /** Constraint violations the relational store reports when a row is committed. */
  datatype CommitError =
    | UniqueViolation      // a `unique=True` column already holds the value
    | ForeignKeyViolation  // `refresh_tokens.user_id` names no row of `users`
    | ValueTooLong         // a value exceeds its `String(n)` column width

  datatype AppError =
    | Raised(exc: HttpException)
    | Database(error: CommitError)
    | SigningFailed  // python-jose's `JWSError`, uncaught: the request fails with 500
}
