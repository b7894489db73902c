/**
 * The web service's error taxonomy: every failure the data-access layer or the
 * web framework produces, the HTTP status it is answered with, and the message
 * a client gets to see.
 */
module ServiceErrors {

  /** Status codes, as numbered in RFC 9110. */
  const BAD_REQUEST: int := 400            // section 15.5.1 of RFC 9110
  const NOT_FOUND: int := 404              // section 15.5.5 of RFC 9110
  const INTERNAL_SERVER_ERROR: int := 500  // section 15.6.1 of RFC 9110

  const DATABASE_ERROR_MESSAGE := "Database error"
  const INTERNAL_ERROR_MESSAGE := "Internal server error"

  /** Every variant carries a string; for the first two it is server-side detail. */
  datatype MyError =
    | DBError(msg: string)
    | ActixError(msg: string)
    | NotFound(msg: string)
    | InvalidInput(msg: string)

  /** The outcome of a data-access function. */
  datatype Result<+T> = Ok(value: T) | Err(error: MyError)

  /** A failure raised by the database driver, known by the text it renders to. */
  datatype SqlxError = SqlxError(text: string)

  /** A failure raised by the web framework, known by the text it renders to. */
  datatype ActixWebError = ActixWebError(text: string)

  /** The JSON body of an error response: a single `error_msg` field. */
  datatype ErrorBody = ErrorBody(errorMsg: string)

  datatype HttpResponse = HttpResponse(status: int, body: ErrorBody)

  /** The variants whose detail must stay on the server. */
  predicate IsInternal(e: MyError)
  {
    e.DBError? || e.ActixError?
  }

  /** The message shown to the client (the detail of internal errors is only logged). */
  function ClientMessage(e: MyError): (m: string)
    ensures e.DBError? ==> m == DATABASE_ERROR_MESSAGE
    ensures e.ActixError? ==> m == INTERNAL_ERROR_MESSAGE
    ensures !IsInternal(e) ==> m == e.msg
  {
    match e
    case DBError(_) => DATABASE_ERROR_MESSAGE
    case ActixError(_) => INTERNAL_ERROR_MESSAGE
    case NotFound(m) => m
    case InvalidInput(m) => m
  }

  function StatusCode(e: MyError): (s: int)
    ensures s == INTERNAL_SERVER_ERROR <==> IsInternal(e)
    ensures s == NOT_FOUND <==> e.NotFound?
    ensures s == BAD_REQUEST <==> e.InvalidInput?
  {
    match e
    case DBError(_) => INTERNAL_SERVER_ERROR
    case ActixError(_) => INTERNAL_SERVER_ERROR
    case NotFound(_) => NOT_FOUND
    case InvalidInput(_) => BAD_REQUEST
  }

  /** The HTTP response for an error: its status code and a body holding the client message. */
  function ErrorResponse(e: MyError): (resp: HttpResponse)
    ensures resp.status == StatusCode(e)
    ensures resp.body.errorMsg == ClientMessage(e)
  {
    HttpResponse(StatusCode(e), ErrorBody(ClientMessage(e)))
  }

  /** Every framework error becomes `ActixError`, carrying the framework's text. */
  function FromActix(err: ActixWebError): (e: MyError)
    ensures e.ActixError? && e.msg == err.text
  {
    ActixError(err.text)
  }

  /** Every database driver error becomes `DBError`, carrying the driver's text. */
  function FromSqlx(err: SqlxError): (e: MyError)
    ensures e.DBError? && e.msg == err.text
  {
    DBError(err.text)
  }

  /** The response for an internal error is the same whatever detail it carries. */
  lemma InternalDetailNeverReachesClient(e: MyError, detail: string)
    requires IsInternal(e)
    ensures ErrorResponse(e.(msg := detail)) == ErrorResponse(e)
    ensures ErrorResponse(e).status == INTERNAL_SERVER_ERROR
  {
  }

  /** A client error (a 4xx status) echoes exactly the message it carries. */
  lemma ClientErrorEchoesMessage(e: MyError)
    requires 400 <= ErrorResponse(e).status < 500
    ensures ErrorResponse(e).body.errorMsg == e.msg
    ensures e.NotFound? || e.InvalidInput?
  {
  }

  /** Any driver failure reaches the client as a 500 with the generic database message. */
  lemma SqlxFailureResponse(err: SqlxError)
    ensures ErrorResponse(FromSqlx(err)) == HttpResponse(INTERNAL_SERVER_ERROR, ErrorBody(DATABASE_ERROR_MESSAGE))
  {
  }

  /** Any framework failure reaches the client as a 500 with the generic server message. */
  lemma ActixFailureResponse(err: ActixWebError)
    ensures ErrorResponse(FromActix(err)) == HttpResponse(INTERNAL_SERVER_ERROR, ErrorBody(INTERNAL_ERROR_MESSAGE))
  {
  }
}
