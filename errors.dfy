/**
 * The application's error kinds and the HTTP status each carries
 * (src/core/exceptions/base.py and the message constants it is used with).
 * A raised exception becomes an `Err` value; the control flow that Python
 * expresses with `raise` is expressed with `Result` and `Outcome`.
 */
module Errors {

  const HTTP_400_BAD_REQUEST := 400
  const HTTP_401_UNAUTHORIZED := 401
  const HTTP_403_FORBIDDEN := 403
  const HTTP_404_NOT_FOUND := 404
  const HTTP_422_UNPROCESSABLE_ENTITY := 422

  /** One entry of a request-validation error list: the field and the message. */
  datatype FieldError = FieldError(loc: string, msg: string)

  datatype Error =
    /** An `HTTPException` (and so every `AppException`): a status and a detail text. */
    | Http(statusCode: int, detail: string)
    /** A database constraint violation that no code translated into a domain error. */
    | Integrity
    /** A string longer than its column allows (the database's data error, also untranslated). */
    | DataTooLong
    /** A request body or query that failed schema validation; answered with 422. */
    | RequestValidation(errors: seq<FieldError>)

  datatype Result<T> = Ok(value: T) | Err(error: Error)

  /** The outcome of an operation that returns nothing (Python's `-> None`). */
  datatype Outcome = Pass | Fail(error: Error)

  const HTTP_503_SERVICE_UNAVAILABLE := 503
  const DATABASE_CONNECTION_ERROR := "Database connection error"

  /** The answer `get_db` substitutes for any database error escaping a request. */
  const DatabaseUnavailable := Http(HTTP_503_SERVICE_UNAVAILABLE, DATABASE_CONNECTION_ERROR)

  /**
   * The error a client receives. The per-request session of `get_db` turns
   * every database error that no code translated into a 503 with
   * "Database connection error"; every other error passes unchanged.
   */
  function Surfaced(e: Error): (s: Error)
    ensures (e.Integrity? || e.DataTooLong?) ==> s == DatabaseUnavailable
    ensures !(e.Integrity? || e.DataTooLong?) ==> s == e
    ensures !s.Integrity? && !s.DataTooLong?
  {
    if e.Integrity? || e.DataTooLong? then DatabaseUnavailable else e
  }

  /** The HTTP status a client sees for an error. */
  function StatusOf(e: Error): (code: int)
    ensures e.Http? ==> code == e.statusCode
    ensures e.RequestValidation? ==> code == HTTP_422_UNPROCESSABLE_ENTITY
    ensures (e.Integrity? || e.DataTooLong?) ==> code == HTTP_503_SERVICE_UNAVAILABLE
  {
    match Surfaced(e)
    case Http(code, _) => code
    case RequestValidation(_) => HTTP_422_UNPROCESSABLE_ENTITY
    case Integrity => assert false; 0
    case DataTooLong => assert false; 0
  }

  /** `AppException(status_code, detail)`: keeps both exactly as given. */
  function AppException(statusCode: int, detail: string): (e: Error)
    ensures e.Http? && StatusOf(e) == statusCode && e.detail == detail
  {
    Http(statusCode, detail)
  }

  /** `NotFoundException(detail)`: always 404, whatever the detail. */
  function NotFoundException(detail: string): (e: Error)
    ensures e.Http? && StatusOf(e) == HTTP_404_NOT_FOUND && e.detail == detail
  {
    AppException(HTTP_404_NOT_FOUND, detail)
  }

  /** `AlreadyExistsException(detail, status_code=400)`. */
  function AlreadyExistsException(detail: string, statusCode: int := HTTP_400_BAD_REQUEST): (e: Error)
    ensures e.Http? && StatusOf(e) == statusCode && e.detail == detail
  {
    AppException(statusCode, detail)
  }

  /** `UnauthorizedException(detail, status_code=401)`. */
  function UnauthorizedException(detail: string, statusCode: int := HTTP_401_UNAUTHORIZED): (e: Error)
    ensures e.Http? && StatusOf(e) == statusCode && e.detail == detail
  {
    AppException(statusCode, detail)
  }

  // Messages of the not-found subclasses (src/core/exceptions/messages.py).
  const AUTHOR_NOT_FOUND := "Author not found"
  const GENRE_NOT_FOUND := "Genre not found"
  const BOOK_NOT_FOUND := "Book not found"
  const INVALID_TOKEN := "Invalid token"

  const AuthorNotFound := NotFoundException(AUTHOR_NOT_FOUND)
  const GenreNotFound := NotFoundException(GENRE_NOT_FOUND)
  const BookNotFound := NotFoundException(BOOK_NOT_FOUND)
  /** `InvalidTokenException()`: an `UnauthorizedException` with its default status. */
  const InvalidToken := UnauthorizedException(INVALID_TOKEN)

  // The repositories raise a plain HTTPException with these texts on a uniqueness clash.
  const BookTitleExists := Http(HTTP_400_BAD_REQUEST, "Book with this title already exists.")
  const AuthorNameExists := Http(HTTP_400_BAD_REQUEST, "Author with this name already exists.")
  const GenreNameExists := Http(HTTP_400_BAD_REQUEST, "Genre with this name already exists.")

  /** The 403 both access gates raise. */
  const Forbidden := Http(HTTP_403_FORBIDDEN, "You do not have permission to access this resource")

  /** The 401 `validate_token` raises when the "type" claim is not the expected one. */
  function TokenTypeMismatch(current: string, expected: string): (e: Error)
    ensures StatusOf(e) == HTTP_401_UNAUTHORIZED
    ensures e.detail == "Invalid token type '" + current + "' expected '" + expected + "'"
  {
    Http(HTTP_401_UNAUTHORIZED, "Invalid token type '" + current + "' expected '" + expected + "'")
  }
}
