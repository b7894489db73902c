/**
 * The web app's error taxonomy: the same shape as the service's, with a
 * template-rendering variant and no database variant.
 */
module WebappErrors {

  const INTERNAL_ERROR_MESSAGE := "Internal server error"

  datatype MyError =
    | ActixError(msg: string)
    | NotFound(msg: string)
    | TeraError(msg: string)

  /** A failure raised by the web framework, known by the text it renders to. */
  datatype ActixWebError = ActixWebError(text: string)

  /** The message shown to the client; only the framework error's detail is withheld. */
  function ClientMessage(e: MyError): (m: string)
    ensures e.ActixError? ==> m == INTERNAL_ERROR_MESSAGE
    ensures !e.ActixError? ==> m == e.msg
  {
    match e
    case ActixError(_) => INTERNAL_ERROR_MESSAGE
    case TeraError(m) => m
    case NotFound(m) => m
  }

  /** Every framework error becomes `ActixError`, carrying the framework's text. */
  function FromActix(err: ActixWebError): (e: MyError)
    ensures e.ActixError? && e.msg == err.text
  {
    ActixError(err.text)
  }

  /** The framework error's message does not depend on its payload. */
  lemma ActixPayloadNeverReachesClient(e: MyError, detail: string)
    requires e.ActixError?
    ensures ClientMessage(e.(msg := detail)) == ClientMessage(e)
  {
  }

  /** Whatever the framework reports, the client sees the generic server message. */
  lemma ActixFailureMessage(err: ActixWebError)
    ensures ClientMessage(FromActix(err)) == INTERNAL_ERROR_MESSAGE
  {
  }
}
