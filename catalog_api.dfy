/**
 * CatalogLibraryController.java: lookup by isbn, lookup by title and the
 * author search. Each reply is over the fields of the service's response.
 */
module CatalogApi {
  import opened Wrappers
  import opened Exceptions
  import opened ErrorAdvice
  import opened Records
  import opened SearchExpressions
  import opened Catalogs
  import opened AsyncCompletion

  /** The controller's message for a null response to an isbn lookup. */
  function NullIsbnMessage(isbn: string): string {
    "Book not found for ISBN: " + isbn
  }

  /** The controller's message for a null response to a title lookup. */
  function NullTitleMessage(title: string): string {
    "No catalog entry found for title: " + title
  }

  /** getBookByISBN. */
  function GetBookByIsbn(store: CatalogStore, byIsbn: Table<seq<Activity>>, isbn: string, timedOut: bool): (reply: HttpReply<CatalogFields>)
    ensures timedOut ==> reply == ErrorReply(BuildError(RequestTimeout, Some(TimeoutText)))
    ensures !timedOut ==> (reply.OkReply? <==> ByIsbn(store, byIsbn, isbn).Success?)
    ensures reply.OkReply? ==> reply.body == Some(ByIsbn(store, byIsbn, isbn).value)
  {
    TimeoutReply<CatalogFields>(Some(NullIsbnMessage(isbn)));
    Reply(OutcomeOf(ByIsbn(store, byIsbn, isbn), timedOut), Some(NullIsbnMessage(isbn)))
  }

  /** getBookByTitle. */
  function GetBookByTitle(store: CatalogStore, byIsbn: Table<seq<Activity>>, title: string, timedOut: bool): (reply: HttpReply<CatalogFields>)
    ensures timedOut ==> reply == ErrorReply(BuildError(RequestTimeout, Some(TimeoutText)))
    ensures !timedOut ==> (reply.OkReply? <==> ByTitle(store, byIsbn, title).Success?)
    ensures reply.OkReply? ==> reply.body == Some(ByTitle(store, byIsbn, title).value)
  {
    TimeoutReply<CatalogFields>(Some(NullTitleMessage(title)));
    Reply(OutcomeOf(ByTitle(store, byIsbn, title), timedOut), Some(NullTitleMessage(title)))
  }

  /** searchCatalog: no null check, so no 404 of its own. */
  function SearchCatalog(store: CatalogStore, byIsbn: Table<seq<Activity>>, request: CatalogSearchRequest, timedOut: bool)
    : (reply: HttpReply<seq<CatalogFields>>)
    ensures timedOut ==> reply == ErrorReply(BuildError(RequestTimeout, Some(TimeoutText)))
    ensures !timedOut ==> (reply.OkReply? <==> SearchResults(store, byIsbn, request).Success?)
    ensures reply.OkReply? ==> reply.body == Some(SearchResults(store, byIsbn, request).value)
  {
    TimeoutReply<seq<CatalogFields>>(None);
    Reply(OutcomeOf(SearchResults(store, byIsbn, request), timedOut), None)
  }

  /**
   * A missing isbn is answered with 404 and the service's NotFound message;
   * the controller's own null check never fires.
   */
  lemma MissingIsbnReply(store: CatalogStore, byIsbn: Table<seq<Activity>>, isbn: string)
    requires isbn !in store.table.failing && isbn !in store.table.items
    ensures GetBookByIsbn(store, byIsbn, isbn, false) == ErrorReply(BuildError(NotFoundStatus, Some(IsbnNotFound(isbn))))
  {
    MissingIsbnIsNotFound(store, byIsbn, isbn);
    var error := ByIsbn(store, byIsbn, isbn).error;
    FailureReply<CatalogFields>(error, Some(NullIsbnMessage(isbn)));
  }

  /** A missing title is answered with 404 and the service's message, not the controller's. */
  lemma MissingTitleReply(store: CatalogStore, byIsbn: Table<seq<Activity>>, title: string)
    requires store.scan.Success? && forall x :: x in store.scan.value ==> x.title != Some(title)
    ensures GetBookByTitle(store, byIsbn, title, false) == ErrorReply(BuildError(NotFoundStatus, Some(TitleNotFound(title))))
  {
    MissingTitleIsNotFound(store, byIsbn, title);
    var error := ByTitle(store, byIsbn, title).error;
    FailureReply<CatalogFields>(error, Some(NullTitleMessage(title)));
  }

  /**
   * A failing catalog read is answered as the read's own failure: a read
   * whose exception is a TimeoutException still gets 408 under the
   * service's wrappers, a NotFound 404.
   */
  lemma IsbnReadFailureReply(store: CatalogStore, byIsbn: Table<seq<Activity>>, isbn: string)
    requires isbn in store.table.failing && Root(store.table.failing[isbn]).cause.None?
    ensures GetBookByIsbn(store, byIsbn, isbn, false) == ErrorReply(Classify(Innermost(store.table.failing[isbn])))
  {
    var e := store.table.failing[isbn];
    ServiceWrapperIsTransparent<CatalogFields>(Some(IsbnFailure(isbn)), e, Some(NullIsbnMessage(isbn)));
    FailureReply<CatalogFields>(e, Some(NullIsbnMessage(isbn)));
  }

  /** A failing scan is answered as the scan's own failure, for the search as for the title lookup. */
  lemma ScanFailureReply(store: CatalogStore, byIsbn: Table<seq<Activity>>, request: CatalogSearchRequest, title: string)
    requires store.scan.Failure? && Root(store.scan.error).cause.None?
    ensures SearchCatalog(store, byIsbn, request, false) == ErrorReply(Classify(Innermost(store.scan.error)))
    ensures GetBookByTitle(store, byIsbn, title, false) == ErrorReply(Classify(Innermost(store.scan.error)))
  {
    var e := store.scan.error;
    ServiceWrapperIsTransparent<seq<CatalogFields>>(Some(SearchFailure), e, None);
    FailureReply<seq<CatalogFields>>(e, None);
    ServiceWrapperIsTransparent<CatalogFields>(Some(TitleFailure(title)), e, Some(NullTitleMessage(title)));
    FailureReply<CatalogFields>(e, Some(NullTitleMessage(title)));
  }
}
