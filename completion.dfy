/**
 * The completion chain every controller endpoint shares: the service call
 * runs in supplyAsync, orTimeout bounds it, and the handleAsync callback
 * turns a failure into a CompletionException around its unwrapped cause (and,
 * where the controller checks for it, a null value into a NotFoundException).
 * Spring then answers the future: 200 with the value, or the advice's reply
 * to the cause of the CompletionException.
 */
module AsyncCompletion {
  import opened Wrappers
  import opened Exceptions
  import opened ErrorAdvice

  /** How the supplier's future settled once orTimeout applied. */
  datatype Outcome<T> =
    | Completed(value: Option<T>)  // the supplier returned, null included
    | TimedOut                     // the deadline passed first
    | Failed(error: Throwable)     // the supplier threw

  /**
   * The outcome of a service call: the deadline wins when it passes first.
   * The services never return null, so a completed call always has a value.
   */
  function OutcomeOf<T>(result: Result<T, Throwable>, timedOut: bool): (o: Outcome<T>)
    ensures o.TimedOut? <==> timedOut
    ensures !timedOut && result.Success? ==> o == Completed(Some(result.value))
    ensures !timedOut && result.Failure? ==> o == Failed(result.error)
    ensures o != Completed(None)
  {
    if timedOut then TimedOut
    else match result
      case Success(v) => Completed(Some(v))
      case Failure(e) => Failed(e)
  }

  /**
   * The throwable handleAsync's callback receives: orTimeout completes with a
   * bare TimeoutException, supplyAsync wraps what the supplier threw in a
   * CompletionException.
   */
  function Received<T>(o: Outcome<T>): (t: Option<Throwable>)
    ensures t.None? <==> o.Completed?
    ensures o.TimedOut? ==> Top(t.value) == ExNode(Timeout, None, [], None)
    ensures o.Failed? ==> Top(t.value).kind == Completion && Root(t.value) == Root(o.error)
  {
    match o
    case Completed(_) => None
    case TimedOut => Some(New(Timeout, None))
    case Failed(e) =>
      UnwrapSeesThroughCompletion(e);
      Some(AsCompletion(e))
  }

  /** The future handleAsync returns. */
  datatype Completion<T> = Done(body: Option<T>) | Exceptionally(error: Throwable)

  /**
   * The callback: a received throwable is unwrapped and rethrown inside a new
   * CompletionException; a null value becomes a NotFoundException with the
   * controller's message when the controller checks for null (`notFound`).
   */
  function HandleAsync<T>(o: Outcome<T>, notFound: Option<string>): (c: Completion<T>)
    ensures c.Done? <==> o.Completed? && (o.value.Some? || notFound.None?)
    ensures c.Done? ==> c.body == o.value
    ensures c.Exceptionally? ==> Top(c.error).kind == Completion && Top(c.error).cause.Some?
  {
    match Received(o)
    case Some(t) => Exceptionally(Wrap(Completion, None, Innermost(t)))
    case None =>
      if o.value.None? && notFound.Some? then Exceptionally(Wrap(Completion, None, New(NotFound, notFound)))
      else Done(o.value)
  }

  /**
   * What Spring's handling of a CompletableFuture return value passes on to
   * the advice: the cause of a CompletionException that has one, otherwise
   * the exception itself.
   */
  function Delivered(e: Throwable): Throwable {
    if Top(e).kind == Completion && Top(e).cause.Some? then Raised(e.graph, Top(e).cause.value) else e
  }

  /** A reply to the client. */
  datatype HttpReply<T> = OkReply(body: Option<T>) | ErrorReply(entity: ResponseEntity)

  const OkStatus := 200

  function Status<T>(r: HttpReply<T>): int {
    if r.OkReply? then OkStatus else r.entity.status
  }

  /** Spring's answer to the future handleAsync returned. */
  function Respond<T>(c: Completion<T>): HttpReply<T> {
    match c
    case Done(body) => OkReply(body)
    case Exceptionally(e) => ErrorReply(Classify(Delivered(e)))
  }

  /** The whole chain, from how the supplier settled to the reply. */
  function Reply<T>(o: Outcome<T>, notFound: Option<string>): (r: HttpReply<T>)
    ensures r.OkReply? <==> o.Completed? && (o.value.Some? || notFound.None?)
    ensures r.OkReply? ==> r.body == o.value
    ensures Status(r) in {OkStatus, BadRequest, NotFoundStatus, RequestTimeout, InternalServerError}
  {
    Respond(HandleAsync(o, notFound))
  }

  // ---------------------------------------------------------------------
  // Properties of the chain
  // ---------------------------------------------------------------------

  /** What the advice sees is the exception the callback wrapped: same node, same root. */
  lemma DeliveredIsRethrownCause(cause: Throwable)
    ensures Top(Delivered(Wrap(Completion, None, cause))) == Top(cause)
    ensures Root(Delivered(Wrap(Completion, None, cause))) == Root(cause)
  {
    CauseOfWrap(Completion, None, cause);
  }

  /**
   * A supplier failure whose cause chain ends is answered as if the object
   * at its end had been thrown alone: the wrappers of supplyAsync, of the
   * service and of the callback make no difference.
   */
  lemma FailureReply<T>(e: Throwable, notFound: Option<string>)
    requires Root(e).cause.None?
    ensures Reply(Outcome<T>.Failed(e), notFound) == ErrorReply(Classify(Innermost(e)))
  {
    var t := AsCompletion(e);
    UnwrapSeesThroughCompletion(e);
    var c := Innermost(t);
    UnwrapWithoutCause(c);
    UnwrapWithoutCause(Innermost(e));
    DeliveredIsRethrownCause(c);
    ClassifyByTopAndRoot(Delivered(Wrap(Completion, None, c)), Innermost(e));
  }

  /** Two failures with the same root, where the chain ends, get the same reply. */
  lemma RootDecidesReply<T>(e: Throwable, f: Throwable, notFound: Option<string>)
    requires Root(e) == Root(f) && Root(e).cause.None?
    ensures Reply(Outcome<T>.Failed(e), notFound) == Reply(Outcome<T>.Failed(f), notFound)
  {
    FailureReply<T>(e, notFound);
    FailureReply<T>(f, notFound);
    UnwrapWithoutCause(Innermost(e));
    UnwrapWithoutCause(Innermost(f));
    ClassifyByTopAndRoot(Innermost(e), Innermost(f));
  }

  /**
   * A failure the service wrapped in its own exception, around the
   * CompletionException of a joined read, is answered as the read's own
   * failure would be.
   */
  lemma ServiceWrapperIsTransparent<T>(message: Option<string>, e: Throwable, notFound: Option<string>)
    requires Root(e).cause.None?
    ensures Reply(Outcome<T>.Failed(Wrap(Runtime, message, AsCompletion(e))), notFound) == Reply(Outcome<T>.Failed(e), notFound)
  {
    UnwrapSeesThroughWrap(Runtime, message, AsCompletion(e));
    UnwrapSeesThroughCompletion(e);
    RootDecidesReply<T>(Wrap(Runtime, message, AsCompletion(e)), e, notFound);
  }

  /** A request that outlives the deadline is answered with 408 and the timeout text. */
  lemma TimeoutReply<T>(notFound: Option<string>)
    ensures Reply(Outcome<T>.TimedOut, notFound) == ErrorReply(BuildError(RequestTimeout, Some(TimeoutText)))
  {
    var t := New(Timeout, None);
    UnwrapWithoutCause(t);
    DeliveredIsRethrownCause(t);
  }

  /** A null value, where the controller checks for it, is answered with 404 and the controller's message. */
  lemma NullValueReply<T>(message: string)
    ensures Reply(Outcome<T>.Completed(None), Some(message)) == ErrorReply(BuildError(NotFoundStatus, Some(message)))
  {
    DeliveredIsRethrownCause(New(NotFound, Some(message)));
  }
}
