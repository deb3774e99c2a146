/**
 * AccountService.java: account lookups and the user response with the
 * books the account has borrowed. The account table and the activity index
 * by account number are read-only tables of the store.
 */
module Accounts {
  import opened Wrappers
  import opened Exceptions
  import opened Records

  datatype BorrowedBook = BorrowedBook(bookId: string, title: Option<string>, checkOutDate: Day, dueByDate: Day)

  datatype UserResponse = UserResponse(
    accountNumber: Option<string>,
    firstName: Option<string>,
    lastName: Option<string>,
    memberSince: Option<Day>,
    borrowedBooks: Option<seq<BorrowedBook>>)

  /** accountExists: a failed lookup counts as absent. */
  function AccountExists(accounts: Table<Account>, accountNumber: string): (b: bool)
    ensures b <==> accountNumber !in accounts.failing && accountNumber in accounts.items
  {
    match Lookup(accounts, accountNumber)
    case Success(Some(_)) => true
    case _ => false
  }

  /** mapToUserResponse: null for null, else the account's fields and no book list yet. */
  function MapToUserResponse(account: Option<Account>): (r: Option<UserResponse>)
    ensures r.None? <==> account.None?
    ensures r.Some? ==> var a := account.value;
      && r.value.accountNumber == a.accountNumber && r.value.firstName == a.firstName
      && r.value.lastName == a.lastName && r.value.memberSince == a.memberSince
      && r.value.borrowedBooks.None?
  {
    match account
    case None => None
    case Some(a) => Some(UserResponse(a.accountNumber, a.firstName, a.lastName, a.memberSince, None))
  }

  /** mapToBorrowedBook: the activity's due date becomes the due-by date. */
  function MapToBorrowedBook(activity: Activity): BorrowedBook {
    BorrowedBook(activity.bookId, activity.title, activity.checkOutDate, activity.dueDate)
  }

  /** The borrowed books of a list of activities, one per activity, in order. */
  function BorrowedBooks(checkouts: seq<Activity>): (books: seq<BorrowedBook>)
    ensures |books| == |checkouts|
    ensures forall i :: 0 <= i < |checkouts| ==>
      && books[i].bookId == checkouts[i].bookId && books[i].title == checkouts[i].title
      && books[i].checkOutDate == checkouts[i].checkOutDate && books[i].dueByDate == checkouts[i].dueDate
  {
    seq(|checkouts|, i requires 0 <= i < |checkouts| => MapToBorrowedBook(checkouts[i]))
  }

  /**
   * enrichWithBorrowedBooks: the account's activities as borrowed books; a
   * null list gives an empty list; a failing index query propagates.
   */
  function EnrichWithBorrowedBooks(response: UserResponse, byAccount: Table<seq<Activity>>, accountNumber: string): (r: Result<UserResponse, Throwable>)
    ensures r.Failure? <==> accountNumber in byAccount.failing
    ensures r.Success? ==> r.value == response.(borrowedBooks := r.value.borrowedBooks)
    ensures r.Success? ==> r.value.borrowedBooks.Some?
    ensures r.Success? && accountNumber !in byAccount.items ==> r.value.borrowedBooks == Some([])
    ensures r.Success? && accountNumber in byAccount.items ==>
      r.value.borrowedBooks == Some(BorrowedBooks(byAccount.items[accountNumber]))
  {
    match Lookup(byAccount, accountNumber)
    case Failure(e) => Failure(e)
    case Success(checkouts) =>
      var list := if checkouts.Some? then checkouts.value else [];
      Success(response.(borrowedBooks := Some(BorrowedBooks(list))))
  }

  function RetrieveFailure(accountNumber: string): string {
    "Failed to retrieve account #" + accountNumber
  }

  function AccountNotFound(accountNumber: string): string {
    "Account not found for account number: " + accountNumber
  }

  /**
   * getByAccountNumber: the enriched response, or a RuntimeException
   * "Failed to retrieve account #n" around what went wrong: the joined
   * lookup's CompletionException, a NotFoundException for a missing account,
   * or the failure of the activity index.
   */
  function GetByAccountNumber(accounts: Table<Account>, byAccount: Table<seq<Activity>>, accountNumber: string): (r: Result<UserResponse, Throwable>)
    ensures r.Success? <==> AccountExists(accounts, accountNumber) && accountNumber !in byAccount.failing
    ensures r.Failure? ==> Top(r.error) == ExNode(Runtime, Some(RetrieveFailure(accountNumber)), [], Top(r.error).cause)
  {
    match Lookup(accounts, accountNumber)
    case Failure(e) => Failure(Wrap(Runtime, Some(RetrieveFailure(accountNumber)), AsCompletion(e)))
    case Success(None) =>
      Failure(Wrap(Runtime, Some(RetrieveFailure(accountNumber)), New(NotFound, Some(AccountNotFound(accountNumber)))))
    case Success(Some(account)) =>
      match EnrichWithBorrowedBooks(MapToUserResponse(Some(account)).value, byAccount, accountNumber)
      case Failure(e) => Failure(Wrap(Runtime, Some(RetrieveFailure(accountNumber)), e))
      case Success(response) => Success(response)
  }

  /** A missing account fails with the retrieval message around a NotFound naming the account. */
  lemma MissingAccountIsNotFound(accounts: Table<Account>, byAccount: Table<seq<Activity>>, accountNumber: string)
    requires accountNumber !in accounts.failing && accountNumber !in accounts.items
    ensures var r := GetByAccountNumber(accounts, byAccount, accountNumber);
      && r.Failure?
      && Top(r.error).message == Some(RetrieveFailure(accountNumber))
      && Root(r.error) == ExNode(NotFound, Some(AccountNotFound(accountNumber)), [], None)
  {
    UnwrapSeesThroughWrap(Runtime, Some(RetrieveFailure(accountNumber)), New(NotFound, Some(AccountNotFound(accountNumber))));
  }

  /** A found account's response carries its fields and its borrowed books in index order. */
  lemma FoundAccountResponse(accounts: Table<Account>, byAccount: Table<seq<Activity>>, accountNumber: string)
    requires AccountExists(accounts, accountNumber) && accountNumber !in byAccount.failing
    ensures var r := GetByAccountNumber(accounts, byAccount, accountNumber);
      var a := accounts.items[accountNumber];
      && r.Success?
      && r.value.accountNumber == a.accountNumber && r.value.firstName == a.firstName
      && r.value.lastName == a.lastName && r.value.memberSince == a.memberSince
      && r.value.borrowedBooks == Some(if accountNumber in byAccount.items then BorrowedBooks(byAccount.items[accountNumber]) else [])
  {
  }
}
