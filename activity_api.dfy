/**
 * ActivityLibraryController.java: the checkout and checkin endpoints. The
 * batch runs on the service whatever happens to the deadline: orTimeout
 * answers the client but does not stop the supplier.
 */
module ActivityApi {
  import opened Wrappers
  import opened Exceptions
  import opened ErrorAdvice
  import opened Records
  import opened Activities
  import opened AsyncCompletion

  datatype CheckoutRequest = CheckoutRequest(accountNumber: Option<string>, bookIds: Option<seq<string>>)

  datatype CheckinRequest = CheckinRequest(bookIds: Option<seq<string>>)

  /** checkoutBooks: the batch's results with 200, or the advice's reply to what went wrong. */
  method CheckoutBooks(service: ActivityService, request: CheckoutRequest, today: Day, timedOut: bool)
    returns (reply: HttpReply<seq<BookOperationResult>>)
    requires service.Valid()
    modifies service
    ensures service.Valid()
    ensures var error := CheckoutArgumentError(service.accounts, request.accountNumber, request.bookIds);
      error.Some? ==> reply == Reply(OutcomeOf(Failure(error.value), timedOut), None) && service.activities == old(service.activities)
    ensures var error := CheckoutArgumentError(service.accounts, request.accountNumber, request.bookIds);
      error.None? ==>
        var b := CheckoutAll(service.catalogs, service.faults, old(service.activities), request.accountNumber.value, request.bookIds.value, today);
        reply == Reply(OutcomeOf(Success(b.results), timedOut), None) && service.activities == b.table
  {
    var result := service.CheckoutBooks(request.accountNumber, request.bookIds, today);
    reply := Reply(OutcomeOf(result, timedOut), None);
  }

  /** checkinBooks: the batch's results with 200, or the advice's reply to what went wrong. */
  method CheckinBooks(service: ActivityService, request: CheckinRequest, timedOut: bool)
    returns (reply: HttpReply<seq<BookOperationResult>>)
    requires service.Valid()
    modifies service
    ensures service.Valid()
    ensures request.bookIds.None? ==>
      reply == Reply(OutcomeOf(Failure(NullBookIds()), timedOut), None) && service.activities == old(service.activities)
    ensures request.bookIds.Some? ==>
      var b := CheckinAll(service.catalogs, service.faults, old(service.activities), request.bookIds.value);
      reply == Reply(OutcomeOf(Success(b.results), timedOut), None) && service.activities == b.table
  {
    var result := service.CheckinBooks(request.bookIds);
    reply := Reply(OutcomeOf(result, timedOut), None);
  }

  /**
   * A checkout without account number or copies, or for an unknown account,
   * is answered with 400 and "Argument error: " followed by the reason.
   */
  lemma ArgumentErrorIsBadRequest(accounts: Table<Account>, accountNumber: Option<string>, bookIds: Option<seq<string>>)
    requires CheckoutArgumentError(accounts, accountNumber, bookIds).Some?
    ensures var error := CheckoutArgumentError(accounts, accountNumber, bookIds).value;
      var reply := Reply(OutcomeOf<seq<BookOperationResult>>(Failure(error), false), None);
      reply == ErrorReply(BuildError(BadRequest, Some("Argument error: " + Text(Top(error).message))))
  {
    var error := CheckoutArgumentError(accounts, accountNumber, bookIds).value;
    UnwrapWithoutCause(error);
    FailureReply<seq<BookOperationResult>>(error, None);
  }

  /** An empty list of copies is answered with 400 and the missing-arguments text. */
  lemma EmptyCheckoutReply(accounts: Table<Account>, accountNumber: Option<string>)
    ensures var reply := Reply(OutcomeOf<seq<BookOperationResult>>(Failure(CheckoutArgumentError(accounts, accountNumber, Some([])).value), false), None);
      reply == ErrorReply(BuildError(BadRequest, Some("Argument error: " + MissingArguments)))
  {
    ArgumentErrorIsBadRequest(accounts, accountNumber, Some([]));
    EmptyCheckoutIsRejected(accounts, accountNumber, Some([]));
  }

  /** A checkin without a list of copies is answered with 500 and the generic text. */
  lemma NullCheckinReply()
    ensures Reply(OutcomeOf<seq<BookOperationResult>>(Failure(NullBookIds()), false), None)
      == ErrorReply(BuildError(InternalServerError, Some(UnexpectedText)))
  {
    UnwrapWithoutCause(NullBookIds());
    FailureReply<seq<BookOperationResult>>(NullBookIds(), None);
  }
}
