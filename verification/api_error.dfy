/**
 * `ApiError` and `GlobalExceptionHandler`: how a failure becomes an HTTP status and an
 * error body `{status, error, message, path}`.
 */
module ApiErrors {
  import opened Wrappers
  import Text

  /** The statuses the API answers with. */
  datatype HttpStatus = Ok | Created | NoContent | BadRequest | NotFound {

    /** The numeric status code. */
    function Value(): (code: int)
      ensures 200 <= code < 500
      ensures code < 300 <==> this in {Ok, Created, NoContent}
    {
      match this
      case Ok => 200
      case Created => 201
      case NoContent => 204
      case BadRequest => 400
      case NotFound => 404
    }

    /** The reason phrase of sections 15.3.1, 15.3.2, 15.3.5, 15.5.1 and 15.5.5 of RFC 9110. */
    function ReasonPhrase(): string {
      match this
      case Ok => "OK"
      case Created => "Created"
      case NoContent => "No Content"
      case BadRequest => "Bad Request"
      case NotFound => "Not Found"
    }
  }

  /** The error body; the source's wall-clock `timestamp` is not modelled. */
  datatype ApiError = ApiError(status: int, error: string, message: string, path: string)

  /** `new ApiError(status, message, path)`. */
  function MakeApiError(status: HttpStatus, message: string, path: string): (e: ApiError)
    ensures e.status == status.Value()
    ensures e.error == status.ReasonPhrase()
    ensures e.message == message && e.path == path
  {
    ApiError(status.Value(), status.ReasonPhrase(), message, path)
  }

  /** Distinct statuses have distinct codes, so an error body's `status` identifies its status. */
  lemma StatusValueInjective(a: HttpStatus, b: HttpStatus)
    requires a.Value() == b.Value()
    ensures a == b
  {
  }

  /** The failures that reach the handler. */
  datatype Failure =
    | NoSuchElement(message: string)
    | IllegalArgument(message: string)
    | MethodArgumentNotValid(fieldMessages: seq<string>)

  const FieldSeparator := "; "
  const ValidationFailedMessage := "Validation failed"

  /** The field messages reduced with "; " between them, or "Validation failed" when there are none. */
  function FieldErrorsMessage(fieldMessages: seq<string>): (m: string)
    ensures fieldMessages == [] ==> m == ValidationFailedMessage
    ensures |fieldMessages| == 1 ==> m == fieldMessages[0]
    ensures fieldMessages != [] ==> m == Text.Join(fieldMessages, FieldSeparator)
  {
    var m := Text.ReduceWithSeparator(fieldMessages, FieldSeparator).GetOr(ValidationFailedMessage);
    assert fieldMessages != [] ==> m == Text.Join(fieldMessages, FieldSeparator) by {
      if fieldMessages != [] {
        Text.ReduceIsJoin(fieldMessages, FieldSeparator);
      }
    }
    m
  }

  /** The status each failure kind is answered with. */
  function StatusOf(f: Failure): (st: HttpStatus)
    ensures st == NotFound <==> f.NoSuchElement?
    ensures st == BadRequest <==> !f.NoSuchElement?
  {
    match f
    case NoSuchElement(_) => NotFound
    case IllegalArgument(_) => BadRequest
    case MethodArgumentNotValid(_) => BadRequest
  }

  /** The handler's answer: the failure's status and an error body for the request's URI. */
  function HandleFailure(f: Failure, uri: string): (res: (HttpStatus, ApiError))
    ensures res.0 == StatusOf(f)
    ensures res.1.status == res.0.Value() && res.1.error == res.0.ReasonPhrase() && res.1.path == uri
    ensures f.NoSuchElement? ==> res.1.message == f.message && res.1.status == 404 && res.1.error == "Not Found"
    ensures f.IllegalArgument? ==> res.1.message == f.message && res.1.status == 400 && res.1.error == "Bad Request"
    ensures f.MethodArgumentNotValid? ==> res.1.message == FieldErrorsMessage(f.fieldMessages) && res.1.status == 400
  {
    match f
    case NoSuchElement(m) => (NotFound, MakeApiError(NotFound, m, uri))
    case IllegalArgument(m) => (BadRequest, MakeApiError(BadRequest, m, uri))
    case MethodArgumentNotValid(ms) => (BadRequest, MakeApiError(BadRequest, FieldErrorsMessage(ms), uri))
  }
}
