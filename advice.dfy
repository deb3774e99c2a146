/**
 * The error responses of GlobalControllerAdvice.java: each handler builds a
 * body whose code is the HTTP status, and `Classify` picks the handler for
 * the exception's class the way the advice's handler mapping does.
 */
module ErrorAdvice {
  import opened Wrappers
  import opened Exceptions

  const BadRequest := 400
  const NotFoundStatus := 404
  const RequestTimeout := 408
  const InternalServerError := 500

  const TimeoutText := "The request timed out. Please try again later."
  const UnexpectedText := "An unexpected error occurred."
  const InvalidRequestText := "Invalid request"

  /** The JSON body of an error reply. */
  datatype ErrorResponse = ErrorResponse(code: int, message: Option<string>)

  /** An error reply: its HTTP status and its body. */
  datatype ResponseEntity = ResponseEntity(status: int, body: ErrorResponse)

  /** buildError: the body's code is the status value. */
  function BuildError(status: int, message: Option<string>): (r: ResponseEntity)
    ensures r.status == status && r.body.code == status && r.body.message == message
  {
    ResponseEntity(status, ErrorResponse(status, message))
  }

  /** handleTimeout. */
  function HandleTimeout(): ResponseEntity {
    BuildError(RequestTimeout, Some(TimeoutText))
  }

  /** handleNotFound: the exception's own message, null included. */
  function HandleNotFound(message: Option<string>): ResponseEntity {
    BuildError(NotFoundStatus, message)
  }

  /** The first "name: text" of the field errors or violations, or "Invalid request". */
  function FirstDetail(details: seq<Detail>): (s: string)
    ensures |details| == 0 ==> s == InvalidRequestText
    ensures |details| > 0 ==> s == details[0].name + ": " + details[0].text
  {
    if |details| == 0 then InvalidRequestText else details[0].name + ": " + details[0].text
  }

  /** handleValidation: field errors of a request body. */
  function HandleValidation(fieldErrors: seq<Detail>): ResponseEntity {
    BuildError(BadRequest, Some("Validation error: " + FirstDetail(fieldErrors)))
  }

  /** handleIllegalArguments: a null message reads "null". */
  function HandleIllegalArguments(message: Option<string>): ResponseEntity {
    BuildError(BadRequest, Some("Argument error: " + Text(message)))
  }

  /** handleConstraintViolation: violations of parameter constraints. */
  function HandleConstraintViolation(violations: seq<Detail>): ResponseEntity {
    BuildError(BadRequest, Some("Validation error: " + FirstDetail(violations)))
  }

  /**
   * handleUnhandled as written: the log call builds its argument with Map.of,
   * which throws a NullPointerException on a null value, so a root cause
   * without a message leaves the handler without a response (None).
   */
  function HandleUnhandledAsWritten(e: Throwable): (r: Option<ResponseEntity>)
    ensures r.None? <==> !IsInstance(Root(e).kind, ClassOf(NotFound)) && Root(e).message.None?
  {
    var cause := Root(e);
    if IsInstance(cause.kind, ClassOf(NotFound)) then Some(HandleNotFound(cause.message))
    else if cause.message.None? then None
    else Some(BuildError(InternalServerError, Some(UnexpectedText)))
  }

  /**
   * handleUnhandled as intended: unwrap, delegate a NotFound root to
   * handleNotFound, answer everything else with 500.
   */
  function HandleUnhandled(e: Throwable): (r: ResponseEntity)
    ensures IsCausedBy(e, ClassOf(NotFound)) ==> r == HandleNotFound(Root(e).message)
    ensures !IsCausedBy(e, ClassOf(NotFound)) ==> r == BuildError(InternalServerError, Some(UnexpectedText))
  {
    var cause := Innermost(e);
    if IsInstance(Top(cause).kind, ClassOf(NotFound)) then HandleNotFound(Top(cause).message)
    else BuildError(InternalServerError, Some(UnexpectedText))
  }

  /**
   * The reply for an exception that reaches the advice: the handler declared
   * for its class, and the catch-all handler for every other class.
   */
  function Classify(e: Throwable): (r: ResponseEntity)
    ensures r.body.code == r.status
    ensures r.status in {BadRequest, NotFoundStatus, RequestTimeout, InternalServerError}
    ensures r.status == RequestTimeout <==> Top(e).kind == Timeout
    ensures r.status == BadRequest <==> Top(e).kind in {MethodArgumentNotValid, IllegalArgument, ConstraintViolation}
    ensures r.status == NotFoundStatus <==> Top(e).kind == NotFound || (Top(e).kind !in HandledKinds && Root(e).kind == NotFound)
    ensures Top(e).kind == Timeout ==> r == BuildError(RequestTimeout, Some(TimeoutText))
    ensures Top(e).kind == NotFound ==> r == BuildError(NotFoundStatus, Top(e).message)
    ensures Top(e).kind == IllegalArgument ==> r == BuildError(BadRequest, Some("Argument error: " + Text(Top(e).message)))
    ensures Top(e).kind in {MethodArgumentNotValid, ConstraintViolation} ==>
      r == BuildError(BadRequest, Some("Validation error: " + FirstDetail(Top(e).details)))
    ensures Top(e).kind !in HandledKinds ==> r == HandleUnhandled(e)
  {
    var top := Top(e);
    match top.kind
    case Timeout => HandleTimeout()
    case NotFound => HandleNotFound(top.message)
    case MethodArgumentNotValid => HandleValidation(top.details)
    case IllegalArgument => HandleIllegalArguments(top.message)
    case ConstraintViolation => HandleConstraintViolation(top.details)
    case _ => HandleUnhandled(e)
  }

  /** The classes with a handler of their own. */
  const HandledKinds: set<Kind> := {Timeout, NotFound, MethodArgumentNotValid, IllegalArgument, ConstraintViolation}

  /** The reply depends only on the outermost object and on the object unwrap stops at. */
  lemma ClassifyByTopAndRoot(x: Throwable, y: Throwable)
    requires Top(x) == Top(y) && Root(x) == Root(y)
    ensures Classify(x) == Classify(y)
  {
    assert Top(Innermost(x)) == Top(Innermost(y));
  }

  /** A timeout that arrives wrapped in another exception is not answered with 408 but with 500. */
  lemma WrappedTimeoutIsUnexpected(root: Throwable, message: Option<string>)
    requires Top(root).kind == Timeout && Top(root).cause.None?
    ensures Classify(Wrap(Runtime, message, root)) == BuildError(InternalServerError, Some(UnexpectedText))
  {
    UnwrapSeesThroughWrap(Runtime, message, root);
  }

  /** A NotFound under any wrapper is answered with 404 and the NotFound's own message. */
  lemma WrappedNotFoundIsNotFound(root: Throwable, message: Option<string>)
    requires Top(root).kind == NotFound && Top(root).cause.None?
    ensures Classify(Wrap(Runtime, message, root)) == BuildError(NotFoundStatus, Top(root).message)
  {
    UnwrapSeesThroughWrap(Runtime, message, root);
  }

  /** The catch-all handler as written answers exactly as intended whenever its log call can be built. */
  lemma UnhandledAsWrittenAgrees(e: Throwable)
    requires IsCausedBy(e, ClassOf(NotFound)) || Root(e).message.Some?
    ensures HandleUnhandledAsWritten(e) == Some(HandleUnhandled(e))
  {
  }

  /** An IllegalStateException without a message makes the catch-all handler as written throw. */
  lemma UnhandledAsWrittenFailsWithoutMessage()
    ensures HandleUnhandledAsWritten(New(IllegalState, None)).None?
    ensures HandleUnhandled(New(IllegalState, None)) == BuildError(InternalServerError, Some(UnexpectedText))
  {
  }
}
