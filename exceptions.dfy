/** The exceptions the file store raises and GlobalExceptionHandler's mapping
    of each one to an HTTP status and an error body. */
module Exceptions {

  /** Every exception that can leave FileService or the multipart layer,
      with the message it carries. */
  datatype ExceptionKind =
    | FileNotFound(message: string)
    | FileExpired(message: string)
    | InvalidPassword(message: string)
    | FileSizeLimitExceeded(message: string)
    | MaxUploadSizeExceeded(message: string)
      // thrown by the validator for an empty file or a disallowed extension
    | IllegalArgument(message: string)
      // StorageService wraps every blob-store failure in a RuntimeException
    | StorageFailure(message: string)
      // the metadata store refused an insert (unique or not-null constraint)
    | DataIntegrityViolation(message: string)

  /** A call that returns a value or throws. */
  datatype Result<+T> = Ok(value: T) | Err(error: ExceptionKind)

  /** A void call that returns or throws. */
  datatype Outcome = Pass | Fail(error: ExceptionKind)

  const NOT_FOUND: int := 404
  const GONE: int := 410
  const UNAUTHORIZED: int := 401
  const PAYLOAD_TOO_LARGE: int := 413
  const INTERNAL_SERVER_ERROR: int := 500

  const MAX_UPLOAD_SIZE_MESSAGE: string := "File size exceeds maximum limit"
  const UNEXPECTED_PREFIX: string := "An unexpected error occurred: "

  /** The body buildErrorResponse puts in the response map. */
  datatype ErrorBody = ErrorBody(timestamp: int, status: int, error: string, message: string)

  datatype ErrorResponse = ErrorResponse(status: int, body: ErrorBody)

  /** HttpStatus.getReasonPhrase for the statuses the handler uses. */
  function ReasonPhrase(status: int): string
  {
    if status == NOT_FOUND then "Not Found"
    else if status == GONE then "Gone"
    else if status == UNAUTHORIZED then "Unauthorized"
    else if status == PAYLOAD_TOO_LARGE then "Payload Too Large"
    else "Internal Server Error"
  }

  /** The status the matching @ExceptionHandler answers with; every kind
      without a handler of its own falls to the generic Exception handler. */
  function StatusOf(e: ExceptionKind): (status: int)
    ensures status in {NOT_FOUND, GONE, UNAUTHORIZED, PAYLOAD_TOO_LARGE, INTERNAL_SERVER_ERROR}
    ensures status == INTERNAL_SERVER_ERROR <==>
      e.IllegalArgument? || e.StorageFailure? || e.DataIntegrityViolation?
  {
    match e
    case FileNotFound(_) => NOT_FOUND
    case FileExpired(_) => GONE
    case InvalidPassword(_) => UNAUTHORIZED
    case FileSizeLimitExceeded(_) => PAYLOAD_TOO_LARGE
    case MaxUploadSizeExceeded(_) => PAYLOAD_TOO_LARGE
    case _ => INTERNAL_SERVER_ERROR
  }

  /** The message the matching handler passes to buildErrorResponse. */
  function MessageOf(e: ExceptionKind): string
  {
    match e
    case MaxUploadSizeExceeded(_) => MAX_UPLOAD_SIZE_MESSAGE
    case IllegalArgument(m) => UNEXPECTED_PREFIX + m
    case StorageFailure(m) => UNEXPECTED_PREFIX + m
    case DataIntegrityViolation(m) => UNEXPECTED_PREFIX + m
    case _ => e.message
  }

  /** The response the handler builds for `e` at time `now`. */
  function HandleException(e: ExceptionKind, now: int): (r: ErrorResponse)
    ensures r.status == StatusOf(e) && r.body.status == r.status
    ensures r.body.timestamp == now
    ensures r.body.error == ReasonPhrase(r.status)
    ensures r.status == INTERNAL_SERVER_ERROR ==> r.body.message == UNEXPECTED_PREFIX + e.message
    ensures r.status != INTERNAL_SERVER_ERROR && !e.MaxUploadSizeExceeded? ==> r.body.message == e.message
    ensures e.MaxUploadSizeExceeded? ==> r.body.message == MAX_UPLOAD_SIZE_MESSAGE
  {
    var status := StatusOf(e);
    ErrorResponse(status, ErrorBody(now, status, ReasonPhrase(status), MessageOf(e)))
  }

  /** The four application exceptions and the two size-limit exceptions each
      get their own status; the message of a handled exception reaches the
      client unchanged except for the fixed text of MaxUploadSizeExceeded. */
  lemma StatusTable(m: string, now: int)
    ensures HandleException(FileNotFound(m), now).status == 404
    ensures HandleException(FileExpired(m), now).status == 410
    ensures HandleException(InvalidPassword(m), now).status == 401
    ensures HandleException(FileSizeLimitExceeded(m), now).status == 413
    ensures HandleException(MaxUploadSizeExceeded(m), now).status == 413
    ensures HandleException(MaxUploadSizeExceeded(m), now).body.message == "File size exceeds maximum limit"
  {
  }

  /** The validator's IllegalArgumentException (empty file, disallowed type)
      has no handler of its own, so it reaches the client as a 500 with the
      generic prefix. */
  lemma ValidatorRejectionIsServerError(m: string, now: int)
    ensures HandleException(IllegalArgument(m), now).status == 500
    ensures HandleException(IllegalArgument(m), now).body.message
         == "An unexpected error occurred: " + m
  {
  }
}
