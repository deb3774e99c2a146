/** UserAccountLibraryController.java: the account lookup. */
module AccountApi {
  import opened Wrappers
  import opened Exceptions
  import opened ErrorAdvice
  import opened Records
  import opened Accounts
  import opened AsyncCompletion

  /** The controller's message for a null response. */
  function NullUserMessage(accountNumber: string): string {
    "User not found for account #: " + accountNumber
  }

  /** getUserByAccountNumber. */
  function GetUserByAccountNumber(accounts: Table<Account>, byAccount: Table<seq<Activity>>, accountNumber: string, timedOut: bool)
    : (reply: HttpReply<UserResponse>)
    ensures timedOut ==> reply == ErrorReply(BuildError(RequestTimeout, Some(TimeoutText)))
    ensures !timedOut ==> (reply.OkReply? <==> AccountExists(accounts, accountNumber) && accountNumber !in byAccount.failing)
    ensures reply.OkReply? ==> reply.body == Some(GetByAccountNumber(accounts, byAccount, accountNumber).value)
  {
    TimeoutReply<UserResponse>(Some(NullUserMessage(accountNumber)));
    Reply(OutcomeOf(GetByAccountNumber(accounts, byAccount, accountNumber), timedOut), Some(NullUserMessage(accountNumber)))
  }

  /**
   * A missing account is answered with 404 and the service's NotFound
   * message; the controller's own null check never fires.
   */
  lemma MissingAccountReply(accounts: Table<Account>, byAccount: Table<seq<Activity>>, accountNumber: string)
    requires accountNumber !in accounts.failing && accountNumber !in accounts.items
    ensures GetUserByAccountNumber(accounts, byAccount, accountNumber, false)
      == ErrorReply(BuildError(NotFoundStatus, Some(AccountNotFound(accountNumber))))
  {
    MissingAccountIsNotFound(accounts, byAccount, accountNumber);
    var error := GetByAccountNumber(accounts, byAccount, accountNumber).error;
    FailureReply<UserResponse>(error, Some(NullUserMessage(accountNumber)));
  }

  /** A failing account read is answered as the read's own failure. */
  lemma AccountReadFailureReply(accounts: Table<Account>, byAccount: Table<seq<Activity>>, accountNumber: string)
    requires accountNumber in accounts.failing && Root(accounts.failing[accountNumber]).cause.None?
    ensures GetUserByAccountNumber(accounts, byAccount, accountNumber, false)
      == ErrorReply(Classify(Innermost(accounts.failing[accountNumber])))
  {
    var e := accounts.failing[accountNumber];
    ServiceWrapperIsTransparent<UserResponse>(Some(RetrieveFailure(accountNumber)), e, Some(NullUserMessage(accountNumber)));
    FailureReply<UserResponse>(e, Some(NullUserMessage(accountNumber)));
  }
}
