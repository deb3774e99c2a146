/**
 * CatalogService.java: catalog lookups by isbn and by title, the author
 * search, and the availability each response carries. A response is an
 * object whose availability is set in place; the catalog table, its scan
 * and the activity index by isbn are read-only parts of the store.
 */
module Catalogs {
  import opened Wrappers
  import opened Exceptions
  import opened Records
  import opened SearchExpressions
  import opened Concurrent

  /** The catalog table read by isbn, and what a full scan of it yields, in scan order. */
  datatype CatalogStore = CatalogStore(table: Table<Catalog>, scan: Result<seq<Catalog>, Throwable>)

  /** The fields of a catalog response; availableCopies is null until it is enriched. */
  datatype CatalogFields = CatalogFields(
    isbn: Option<string>,
    title: Option<string>,
    authorFirstName: Option<string>,
    authorLastName: Option<string>,
    totalCopies: int,
    availableCopies: Option<int>)

  class CatalogResponse {
    var isbn: Option<string>
    var title: Option<string>
    var authorFirstName: Option<string>
    var authorLastName: Option<string>
    var totalCopies: int
    var availableCopies: Option<int>

    function Fields(): CatalogFields
      reads this
    {
      CatalogFields(isbn, title, authorFirstName, authorLastName, totalCopies, availableCopies)
    }

    /** A response with the catalog fields set and availableCopies not set. */
    constructor (isbn: Option<string>, title: Option<string>, authorFirstName: Option<string>,
                 authorLastName: Option<string>, totalCopies: int)
      ensures Fields() == CatalogFields(isbn, title, authorFirstName, authorLastName, totalCopies, None)
    {
      this.isbn := isbn;
      this.title := title;
      this.authorFirstName := authorFirstName;
      this.authorLastName := authorLastName;
      this.totalCopies := totalCopies;
      this.availableCopies := None;
    }

    /** The availableCopies setter; nothing else changes. */
    method SetAvailableCopies(n: int)
      modifies this
      ensures Fields() == old(Fields()).(availableCopies := Some(n))
    {
      availableCopies := Some(n);
    }
  }

  // ---------------------------------------------------------------------
  // Mapping and availability
  // ---------------------------------------------------------------------

  /** The number of copies: the number of bookIds, 0 when there is no list. */
  function TotalCopies(c: Catalog): nat {
    if c.bookIds.Some? then |c.bookIds.value| else 0
  }

  /** The fields mapToCatalogResponse copies from a catalog entry. */
  function Mapped(c: Catalog): (f: CatalogFields)
    ensures f.isbn == c.isbn && f.title == c.title
    ensures f.authorFirstName == c.authorFirstName && f.authorLastName == c.authorLastName
    ensures f.totalCopies == TotalCopies(c) && f.availableCopies.None?
  {
    CatalogFields(c.isbn, c.title, c.authorFirstName, c.authorLastName, TotalCopies(c), None)
  }

  /** max(0, total - checkedOut): never negative and never above the total. */
  function Available(total: int, checkedOut: nat): (a: int)
    ensures a >= 0 && a >= total - checkedOut
    ensures a == 0 || a == total - checkedOut
    ensures total >= 0 ==> a <= total
  {
    if total - checkedOut > 0 then total - checkedOut else 0
  }

  /** How many copies of `isbn` the activity index lists; a null list counts as none. */
  function CheckedOut(byIsbn: Table<seq<Activity>>, isbn: string): (r: Result<nat, Throwable>)
    ensures r.Failure? <==> isbn in byIsbn.failing
    ensures r.Success? && isbn in byIsbn.items ==> r.value == |byIsbn.items[isbn]|
    ensures r.Success? && isbn !in byIsbn.items ==> r.value == 0
  {
    match Lookup(byIsbn, isbn)
    case Failure(e) => Failure(e)
    case Success(None) => Success(0)
    case Success(Some(checkouts)) => Success(|checkouts|)
  }

  /** The fields after enrichWithAvailability: unchanged for a null isbn, else availability set. */
  function Enriched(f: CatalogFields, isbn: Option<string>, byIsbn: Table<seq<Activity>>): (r: Result<CatalogFields, Throwable>)
    ensures isbn.None? ==> r == Success(f)
    ensures isbn.Some? ==> (r.Failure? <==> isbn.value in byIsbn.failing)
    ensures isbn.Some? && r.Success? ==> r.value == f.(availableCopies := r.value.availableCopies)
    ensures isbn.Some? && r.Success? ==>
      r.value.availableCopies == Some(Available(f.totalCopies, CheckedOut(byIsbn, isbn.value).value))
  {
    match isbn
    case None => Success(f)
    case Some(key) =>
      match CheckedOut(byIsbn, key)
      case Failure(e) => Failure(e)
      case Success(n) => Success(f.(availableCopies := Some(Available(f.totalCopies, n))))
  }

  /** The mapper of a search: map an item, then enrich it with its own isbn. */
  function EnrichItem(byIsbn: Table<seq<Activity>>): Catalog -> Result<CatalogFields, Throwable> {
    c => Enriched(Mapped(c), c.isbn, byIsbn)
  }

  /** mapToCatalogResponse: null for null, else a fresh response with the catalog's fields. */
  method MapToCatalogResponse(catalog: Option<Catalog>) returns (r: CatalogResponse?)
    ensures r == null <==> catalog.None?
    ensures r != null ==> fresh(r) && r.Fields() == Mapped(catalog.value)
  {
    if catalog.None? {
      return null;
    }
    var c := catalog.value;
    r := new CatalogResponse(c.isbn, c.title, c.authorFirstName, c.authorLastName, TotalCopies(c));
  }

  /**
   * enrichWithAvailability: sets availableCopies on the given response and
   * returns that same object; a null response or isbn returns it untouched.
   */
  method EnrichWithAvailability(response: CatalogResponse?, isbn: Option<string>, byIsbn: Table<seq<Activity>>)
    returns (r: Result<CatalogResponse?, Throwable>)
    modifies response
    ensures response == null ==> r == Success(null)
    ensures response != null ==>
      match Enriched(old(response.Fields()), isbn, byIsbn)
      case Success(f) => r == Success(response) && response.Fields() == f
      case Failure(e) => r == Failure(e) && response.Fields() == old(response.Fields())
  {
    if response == null || isbn.None? {
      return Success(response);
    }
    var checkedOut := CheckedOut(byIsbn, isbn.value);
    if checkedOut.Failure? {
      return Failure(checkedOut.error);
    }
    response.SetAvailableCopies(Available(response.totalCopies, checkedOut.value));
    return Success(response);
  }

  // ---------------------------------------------------------------------
  // Lookup by isbn
  // ---------------------------------------------------------------------

  function IsbnFailure(isbn: string): string {
    "Failed to retrieve book with ISBN " + isbn
  }

  function IsbnNotFound(isbn: string): string {
    "Book not found for ISBN: " + isbn
  }

  /**
   * getByIsbn: the enriched response, or a RuntimeException around what went
   * wrong: the joined read's CompletionException, a NotFoundException for a
   * missing isbn, or the failure of the activity index.
   */
  function ByIsbn(store: CatalogStore, byIsbn: Table<seq<Activity>>, isbn: string): (r: Result<CatalogFields, Throwable>)
    ensures r.Success? <==> isbn !in store.table.failing && isbn in store.table.items && isbn !in byIsbn.failing
    ensures r.Failure? ==> Top(r.error).kind == Runtime && Top(r.error).message == Some(IsbnFailure(isbn))
  {
    match Lookup(store.table, isbn)
    case Failure(e) => Failure(Wrap(Runtime, Some(IsbnFailure(isbn)), AsCompletion(e)))
    case Success(None) => Failure(Wrap(Runtime, Some(IsbnFailure(isbn)), New(NotFound, Some(IsbnNotFound(isbn)))))
    case Success(Some(c)) =>
      match Enriched(Mapped(c), Some(isbn), byIsbn)
      case Failure(e) => Failure(Wrap(Runtime, Some(IsbnFailure(isbn)), e))
      case Success(f) => Success(f)
  }

  /**
   * A found isbn gives the entry's mapped fields with availability set to
   * max(0, total - copies listed in the activity index).
   */
  lemma FoundIsbnResponse(store: CatalogStore, byIsbn: Table<seq<Activity>>, isbn: string)
    requires isbn !in store.table.failing && isbn in store.table.items && isbn !in byIsbn.failing
    ensures var c := store.table.items[isbn];
      var n := if isbn in byIsbn.items then |byIsbn.items[isbn]| else 0;
      ByIsbn(store, byIsbn, isbn) == Success(Mapped(c).(availableCopies := Some(Available(TotalCopies(c), n))))
  {
  }

  method GetByIsbn(store: CatalogStore, byIsbn: Table<seq<Activity>>, isbn: string) returns (r: Result<CatalogResponse, Throwable>)
    ensures match ByIsbn(store, byIsbn, isbn)
      case Success(f) => r.Success? && fresh(r.value) && r.value.Fields() == f
      case Failure(e) => r == Failure(e)
  {
    match Lookup(store.table, isbn)
    case Failure(e) =>
      return Failure(Wrap(Runtime, Some(IsbnFailure(isbn)), AsCompletion(e)));
    case Success(None) =>
      return Failure(Wrap(Runtime, Some(IsbnFailure(isbn)), New(NotFound, Some(IsbnNotFound(isbn)))));
    case Success(Some(c)) =>
      var response := MapToCatalogResponse(Some(c));
      var enriched := EnrichWithAvailability(response, Some(isbn), byIsbn);
      if enriched.Failure? {
        return Failure(Wrap(Runtime, Some(IsbnFailure(isbn)), enriched.error));
      }
      return Success(response);
  }

  /** A missing isbn fails with the retrieval message around a NotFound naming the isbn. */
  lemma MissingIsbnIsNotFound(store: CatalogStore, byIsbn: Table<seq<Activity>>, isbn: string)
    requires isbn !in store.table.failing && isbn !in store.table.items
    ensures var r := ByIsbn(store, byIsbn, isbn);
      r.Failure? && Root(r.error) == ExNode(NotFound, Some(IsbnNotFound(isbn)), [], None)
  {
    UnwrapSeesThroughWrap(Runtime, Some(IsbnFailure(isbn)), New(NotFound, Some(IsbnNotFound(isbn))));
  }

  // ---------------------------------------------------------------------
  // Lookup by title
  // ---------------------------------------------------------------------

  /** The scanned items with the given title, in scan order. */
  function WithTitle(items: seq<Catalog>, title: string): (r: seq<Catalog>)
    ensures |r| <= |items|
    decreases |items|
  {
    if |items| == 0 then []
    else
      var init := WithTitle(items[..|items| - 1], title);
      assert items == items[..|items| - 1] + [items[|items| - 1]];
      if items[|items| - 1].title == Some(title) then init + [items[|items| - 1]] else init
  }

  /** One more scanned item: it is kept exactly when it has the title. */
  lemma WithTitleSnoc(items: seq<Catalog>, i: nat, title: string)
    requires i < |items|
    ensures WithTitle(items[..i + 1], title) == WithTitle(items[..i], title) + (if items[i].title == Some(title) then [items[i]] else [])
  {
    assert items[..i + 1][..i] == items[..i];
  }

  /** The items kept are exactly the scanned items with the title. */
  lemma {:induction false} WithTitleMembers(items: seq<Catalog>, title: string)
    ensures forall x :: x in WithTitle(items, title) <==> x in items && x.title == Some(title)
    decreases |items|
  {
    if |items| > 0 {
      var n := |items| - 1;
      WithTitleMembers(items[..n], title);
      WithTitleSnoc(items, n, title);
      assert items[..n + 1] == items;
      assert items == items[..n] + [items[n]];
    }
  }

  /** The first match of a title scan is the earliest scanned item with that title. */
  lemma {:induction false} FirstWithTitleIsEarliest(items: seq<Catalog>, title: string)
    requires |WithTitle(items, title)| > 0
    ensures exists k :: (0 <= k < |items| && WithTitle(items, title)[0] == items[k]
      && items[k].title == Some(title)
      && forall j :: 0 <= j < k ==> items[j].title != Some(title))
    decreases |items|
  {
    var init := items[..|items| - 1];
    if |WithTitle(init, title)| > 0 {
      FirstWithTitleIsEarliest(init, title);
      var k :| 0 <= k < |init| && WithTitle(init, title)[0] == init[k]
        && init[k].title == Some(title) && forall j :: 0 <= j < k ==> init[j].title != Some(title);
      assert items[k] == init[k];
      assert forall j :: 0 <= j < k ==> items[j] == init[j];
    } else {
      WithTitleMembers(init, title);
      var k := |items| - 1;
      forall j | 0 <= j < k
        ensures items[j].title != Some(title)
      {
        assert items[j] == init[j] && items[j] in init;
      }
    }
  }

  /** getBookByTitleAsync: collects every item a title scan yields, then takes the first or null. */
  method GetBookByTitleAsync(store: CatalogStore, title: string) returns (r: Result<Option<Catalog>, Throwable>)
    ensures store.scan.Failure? ==> r == Failure(store.scan.error)
    ensures store.scan.Success? ==>
      var matches := WithTitle(store.scan.value, title);
      r == Success(if |matches| == 0 then None else Some(matches[0]))
  {
    if store.scan.Failure? {
      return Failure(store.scan.error);
    }
    var items := store.scan.value;
    var results: seq<Catalog> := [];
    var i := 0;
    while i < |items|
      invariant 0 <= i <= |items|
      invariant results == WithTitle(items[..i], title)
    {
      WithTitleSnoc(items, i, title);
      if items[i].title == Some(title) {
        results := results + [items[i]];
      }
      i := i + 1;
    }
    assert items[..|items|] == items;
    return Success(if |results| == 0 then None else Some(results[0]));
  }

  function TitleFailure(title: string): string {
    "Failed to retrieve book with title " + title
  }

  function TitleNotFound(title: string): string {
    "Book not found for title: " + title
  }

  /** getBookByTitle: the first match, enriched with its own isbn, or a wrapped failure. */
  function ByTitle(store: CatalogStore, byIsbn: Table<seq<Activity>>, title: string): (r: Result<CatalogFields, Throwable>)
    ensures r.Failure? ==> Top(r.error).kind == Runtime && Top(r.error).message == Some(TitleFailure(title))
  {
    match store.scan
    case Failure(e) => Failure(Wrap(Runtime, Some(TitleFailure(title)), AsCompletion(e)))
    case Success(items) =>
      var matches := WithTitle(items, title);
      if |matches| == 0 then
        Failure(Wrap(Runtime, Some(TitleFailure(title)), New(NotFound, Some(TitleNotFound(title)))))
      else
        match Enriched(Mapped(matches[0]), matches[0].isbn, byIsbn)
        case Failure(e) => Failure(Wrap(Runtime, Some(TitleFailure(title)), e))
        case Success(f) => Success(f)
  }

  /**
   * The title lookup succeeds exactly when the scan succeeds, some item has
   * the title, and the first such item's availability can be read. It then
   * gives that item's mapped fields, with availability set when the item has
   * an isbn.
   */
  lemma FoundTitleResponse(store: CatalogStore, byIsbn: Table<seq<Activity>>, title: string)
    ensures ByTitle(store, byIsbn, title).Success? <==>
      && store.scan.Success? && |WithTitle(store.scan.value, title)| > 0
      && var m := WithTitle(store.scan.value, title)[0];
         m.isbn.None? || m.isbn.value !in byIsbn.failing
    ensures ByTitle(store, byIsbn, title).Success? ==>
      && store.scan.Success? && |WithTitle(store.scan.value, title)| > 0
      && var m := WithTitle(store.scan.value, title)[0];
         var f := ByTitle(store, byIsbn, title).value;
         && (m.isbn.None? ==> f == Mapped(m))
         && (m.isbn.Some? ==>
               var n := if m.isbn.value in byIsbn.items then |byIsbn.items[m.isbn.value]| else 0;
               f == Mapped(m).(availableCopies := Some(Available(TotalCopies(m), n))))
  {
  }

  method GetBookByTitle(store: CatalogStore, byIsbn: Table<seq<Activity>>, title: string) returns (r: Result<CatalogResponse, Throwable>)
    ensures match ByTitle(store, byIsbn, title)
      case Success(f) => r.Success? && fresh(r.value) && r.value.Fields() == f
      case Failure(e) => r == Failure(e)
  {
    var found := GetBookByTitleAsync(store, title);
    if found.Failure? {
      return Failure(Wrap(Runtime, Some(TitleFailure(title)), AsCompletion(found.error)));
    }
    if found.value.None? {
      return Failure(Wrap(Runtime, Some(TitleFailure(title)), New(NotFound, Some(TitleNotFound(title)))));
    }
    var catalog := found.value.value;
    var response := MapToCatalogResponse(Some(catalog));
    var enriched := EnrichWithAvailability(response, catalog.isbn, byIsbn);
    if enriched.Failure? {
      return Failure(Wrap(Runtime, Some(TitleFailure(title)), enriched.error));
    }
    return Success(response);
  }

  /** No item with the title: the failure's root is a NotFound naming the title. */
  lemma MissingTitleIsNotFound(store: CatalogStore, byIsbn: Table<seq<Activity>>, title: string)
    requires store.scan.Success? && forall x :: x in store.scan.value ==> x.title != Some(title)
    ensures var r := ByTitle(store, byIsbn, title);
      r.Failure? && Root(r.error) == ExNode(NotFound, Some(TitleNotFound(title)), [], None)
  {
    NothingWithTitle(store.scan.value, title);
    UnwrapSeesThroughWrap(Runtime, Some(TitleFailure(title)), New(NotFound, Some(TitleNotFound(title))));
  }

  /** A scan without the title keeps nothing. */
  lemma {:induction false} NothingWithTitle(items: seq<Catalog>, title: string)
    requires forall x :: x in items ==> x.title != Some(title)
    ensures WithTitle(items, title) == []
    decreases |items|
  {
    if |items| > 0 {
      var n := |items| - 1;
      assert forall x :: x in items[..n] ==> x in items;
      NothingWithTitle(items[..n], title);
      WithTitleSnoc(items, n, title);
      assert items[n] in items;
      assert items[..n + 1] == items;
    }
  }

  // ---------------------------------------------------------------------
  // Author search
  // ---------------------------------------------------------------------

  /** The scanned items that match the request, in scan order. */
  function Filter(items: seq<Catalog>, request: CatalogSearchRequest): (r: seq<Catalog>)
    ensures |r| <= |items|
    decreases |items|
  {
    if |items| == 0 then []
    else
      var init := Filter(items[..|items| - 1], request);
      assert items == items[..|items| - 1] + [items[|items| - 1]];
      if Matches(items[|items| - 1], request) then init + [items[|items| - 1]] else init
  }

  /** One more scanned item: it is kept exactly when it matches. */
  lemma FilterSnoc(items: seq<Catalog>, i: nat, request: CatalogSearchRequest)
    requires i < |items|
    ensures Filter(items[..i + 1], request) == Filter(items[..i], request) + (if Matches(items[i], request) then [items[i]] else [])
  {
    assert items[..i + 1][..i] == items[..i];
  }

  /** The items kept are exactly the scanned items that match the request. */
  lemma {:induction false} FilterMembers(items: seq<Catalog>, request: CatalogSearchRequest)
    ensures forall x :: x in Filter(items, request) <==> x in items && Matches(x, request)
    decreases |items|
  {
    if |items| > 0 {
      var n := |items| - 1;
      FilterMembers(items[..n], request);
      FilterSnoc(items, n, request);
      assert items[..n + 1] == items;
      assert items == items[..n] + [items[n]];
    }
  }

  /**
   * searchCatalogAsync: scans with the builder's filter when there is one and
   * without a filter otherwise; either way the items that match the request.
   */
  method SearchCatalogAsync(store: CatalogStore, request: CatalogSearchRequest) returns (r: Result<seq<Catalog>, Throwable>)
    ensures store.scan.Failure? ==> r == Failure(store.scan.error)
    ensures store.scan.Success? ==> r == Success(Filter(store.scan.value, request))
  {
    var expression := From(request);
    if store.scan.Failure? {
      return Failure(store.scan.error);
    }
    var items := store.scan.value;
    var result: seq<Catalog> := [];
    var i := 0;
    while i < |items|
      invariant 0 <= i <= |items|
      invariant result == Filter(items[..i], request)
    {
      FilterSnoc(items, i, request);
      if expression.None? || Satisfies(items[i], expression.value) {
        result := result + [items[i]];
      }
      i := i + 1;
    }
    assert items[..|items|] == items;
    return Success(result);
  }

  const SearchFailure := "Failed to perform catalog search"

  /** search: one enriched response per matching item, in order, or the rewrapped failure. */
  function SearchResults(store: CatalogStore, byIsbn: Table<seq<Activity>>, request: CatalogSearchRequest): (r: Result<seq<CatalogFields>, Throwable>)
    ensures r.Failure? ==> Top(r.error).kind == Runtime && Top(r.error).message == Some(SearchFailure)
  {
    match store.scan
    case Failure(e) => Failure(Wrap(Runtime, Some(SearchFailure), AsCompletion(e)))
    case Success(items) =>
      match ParallelMap(Filter(items, request), EnrichItem(byIsbn))
      case Failure(e) => Failure(Wrap(Runtime, Some(SearchFailure), e))
      case Success(responses) => Success(responses)
  }

  method Search(store: CatalogStore, byIsbn: Table<seq<Activity>>, request: CatalogSearchRequest) returns (r: Result<seq<CatalogResponse>, Throwable>)
    ensures match SearchResults(store, byIsbn, request)
      case Success(fs) => r.Success? && |r.value| == |fs|
        && forall i :: 0 <= i < |fs| ==> fresh(r.value[i]) && r.value[i].Fields() == fs[i]
      case Failure(e) => r == Failure(e)
  {
    var found := SearchCatalogAsync(store, request);
    if found.Failure? {
      return Failure(Wrap(Runtime, Some(SearchFailure), AsCompletion(found.error)));
    }
    var items := found.value;
    ghost var mapper := EnrichItem(byIsbn);
    var out: seq<CatalogResponse> := [];
    var i := 0;
    while i < |items|
      invariant 0 <= i <= |items| && |out| == i
      invariant forall j :: 0 <= j < i ==> mapper(items[j]).Success?
      invariant forall j :: 0 <= j < i ==> fresh(out[j]) && out[j].Fields() == mapper(items[j]).value
    {
      var response := MapAndEnrich(items[i], byIsbn);
      if response.Failure? {
        ParallelMapFailsAtFirst(items, mapper, i);
        return Failure(Wrap(Runtime, Some(SearchFailure), AsCompletion(response.error)));
      }
      out := out + [response.value];
      i := i + 1;
    }
    return Success(out);
  }

  /** One item of a search: a fresh response, mapped and then enriched with its own isbn. */
  method MapAndEnrich(item: Catalog, byIsbn: Table<seq<Activity>>) returns (r: Result<CatalogResponse, Throwable>)
    ensures match EnrichItem(byIsbn)(item)
      case Success(f) => r.Success? && fresh(r.value) && r.value.Fields() == f
      case Failure(e) => r == Failure(e)
  {
    var response := MapToCatalogResponse(Some(item));
    var enriched := EnrichWithAvailability(response, item.isbn, byIsbn);
    if enriched.Failure? {
      return Failure(enriched.error);
    }
    return Success(response);
  }

  /**
   * Every search response is the mapped matching item, one per item in scan
   * order, with availability set from the activity index when the item has
   * an isbn and left unset when it has none.
   */
  lemma SearchResponsesFollowItems(store: CatalogStore, byIsbn: Table<seq<Activity>>, request: CatalogSearchRequest)
    requires SearchResults(store, byIsbn, request).Success?
    ensures var fs := SearchResults(store, byIsbn, request).value;
      var items := Filter(store.scan.value, request);
      && |fs| == |items|
      && (forall i :: 0 <= i < |fs| ==> fs[i] == Mapped(items[i]).(availableCopies := fs[i].availableCopies))
      && (forall i :: 0 <= i < |fs| && items[i].isbn.None? ==> fs[i].availableCopies.None?)
      && (forall i :: 0 <= i < |fs| && items[i].isbn.Some? ==>
            && items[i].isbn.value !in byIsbn.failing
            && fs[i].availableCopies == Some(Available(TotalCopies(items[i]), CheckedOut(byIsbn, items[i].isbn.value).value)))
  {
    var items := Filter(store.scan.value, request);
    var fs := SearchResults(store, byIsbn, request).value;
    forall i | 0 <= i < |fs|
      ensures fs[i] == Mapped(items[i]).(availableCopies := fs[i].availableCopies)
      ensures items[i].isbn.None? ==> fs[i].availableCopies.None?
      ensures items[i].isbn.Some? ==>
        (items[i].isbn.value !in byIsbn.failing
         && fs[i].availableCopies == Some(Available(TotalCopies(items[i]), CheckedOut(byIsbn, items[i].isbn.value).value)))
    {
      assert fs[i] == EnrichItem(byIsbn)(items[i]).value;
    }
  }
}
