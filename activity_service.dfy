/**
 * ActivityService.java: checking copies out and in. The activity table maps
 * each checked-out copy's bookId to its activity record; it is the state the
 * service changes. The catalog and the account table are read-only, and each
 * store operation on the activity table either succeeds or fails with the
 * exception the fault plan names for that bookId.
 */
module Activities {
  import opened Wrappers
  import opened Exceptions
  import opened Records
  import opened Notes
  import opened Accounts

  /** A loan lasts three weeks. */
  const LoanPeriodDays := 21

  datatype BookOperationResult = BookOperationResult(
    bookId: string,
    title: Option<string>,
    checkOutDate: Option<Day>,
    dueByDate: Option<Day>,
    notes: string)

  /** Which store operations on the activity table fail, by bookId, and with what. */
  datatype StoreFaults = StoreFaults(get: map<string, Throwable>, put: map<string, Throwable>, delete: map<string, Throwable>)

  /** Every record is stored under its own bookId. */
  ghost predicate WellKeyed(t: map<string, Activity>) {
    forall k :: k in t ==> t[k].bookId == k
  }

  /** Two tables hold the same record, or none, under `k`. */
  predicate SameAt(t1: map<string, Activity>, t2: map<string, Activity>, k: string) {
    (k in t1 <==> k in t2) && (k in t1 ==> t1[k] == t2[k])
  }

  // ---------------------------------------------------------------------
  // Book ids and catalog lookups
  // ---------------------------------------------------------------------

  /** String.indexOf: the first position of `c`, or -1. */
  function IndexOf(s: string, c: char): (i: int)
    ensures -1 <= i < |s|
    ensures i == -1 <==> c !in s
    ensures i >= 0 ==> s[i] == c && c !in s[..i]
    decreases |s|
  {
    if |s| == 0 then -1
    else if s[0] == c then 0
    else
      var j := IndexOf(s[1..], c);
      assert s == [s[0]] + s[1..];
      if j == -1 then -1
      else
        assert s[..1 + j] == [s[0]] + s[1..][..j];
        1 + j
  }

  /**
   * extractIsbn: the text before the first '.', or the whole id when there is
   * no '.' or the id starts with one.
   */
  function ExtractIsbn(bookId: string): (isbn: string)
    ensures isbn == bookId <==> '.' !in bookId || bookId[0] == '.'
    ensures isbn != bookId ==> 0 < |isbn| < |bookId| && isbn == bookId[..|isbn|] && bookId[|isbn|] == '.' && '.' !in isbn
  {
    var dot := IndexOf(bookId, '.');
    if dot > 0 then bookId[..dot] else bookId
  }

  /** A copy id made of an isbn, '.', and a copy number yields that isbn. */
  lemma ExtractIsbnOfCopyId(isbn: string, copy: string)
    requires |isbn| > 0 && '.' !in isbn
    ensures ExtractIsbn(isbn + "." + copy) == isbn
  {
    var id := isbn + "." + copy;
    assert id[|isbn|] == '.' && id[..|isbn|] == isbn;
    assert id[0] == isbn[0];
    var x := ExtractIsbn(id);
    assert id[..|x|] == x;
  }

  /** A copy id written with '-', as "9781234567897-2", is not split. */
  lemma ExtractIsbnKeepsDashIds()
    ensures ExtractIsbn("9781234567897-2") == "9781234567897-2"
  {
    var id := "9781234567897-2";
    assert forall i :: 0 <= i < |id| ==> id[i] != '.';
  }

  /** fetchCatalogSafely: the catalog entry of the copy's isbn; a failed or empty read gives none. */
  function FetchCatalogSafely(catalogs: Table<Catalog>, bookId: string): (r: Option<Catalog>)
    ensures r.Some? <==> ExtractIsbn(bookId) !in catalogs.failing && ExtractIsbn(bookId) in catalogs.items
    ensures r.Some? ==> r.value == catalogs.items[ExtractIsbn(bookId)]
  {
    match Lookup(catalogs, ExtractIsbn(bookId))
    case Success(Some(c)) => Some(c)
    case _ => None
  }

  // ---------------------------------------------------------------------
  // One copy
  // ---------------------------------------------------------------------

  /** The result of one copy's operation and the activity table after it. */
  datatype Step = Step(result: BookOperationResult, table: map<string, Activity>)

  function NoteOnly(bookId: string, note: BookOperationNote): BookOperationResult {
    BookOperationResult(bookId, None, None, None, Message(note))
  }

  /** The result a failed store operation leaves: "Error: " and the exception's message. */
  function ErrorResult(bookId: string, e: Throwable): BookOperationResult {
    BookOperationResult(bookId, None, None, None, "Error: " + Text(Top(e).message))
  }

  /**
   * processCheckout: an unregistered copy is reported and nothing is
   * written; otherwise a record that exists is deleted and the new loan is
   * put. A failing store operation ends the step with an error note and
   * whatever it had already changed.
   */
  function Checkout(catalogs: Table<Catalog>, faults: StoreFaults, t: map<string, Activity>,
                    accountNumber: string, bookId: string, today: Day): (s: Step)
    ensures s.result.bookId == bookId
    ensures forall k :: k != bookId ==> SameAt(s.table, t, k)
  {
    match FetchCatalogSafely(catalogs, bookId)
    case None => Step(NoteOnly(bookId, Unregistered), t)
    case Some(catalog) =>
      if bookId in faults.get then Step(ErrorResult(bookId, faults.get[bookId]), t)
      else
        var existed := bookId in t;
        if existed && bookId in faults.delete then Step(ErrorResult(bookId, faults.delete[bookId]), t)
        else
          var cleared := if existed then t - {bookId} else t;
          if bookId in faults.put then Step(ErrorResult(bookId, faults.put[bookId]), cleared)
          else
            var due := today + LoanPeriodDays;
            var loan := Activity(bookId, ExtractIsbn(bookId), None, accountNumber, today, due);
            var note := if existed then ReplacedExisting else Ok;
            Step(BookOperationResult(bookId, catalog.title, Some(today), Some(due), Message(note)), cleared[bookId := loan])
  }

  /**
   * processCheckin: an unregistered copy is reported; a copy that is not
   * checked out is reported as already checked in; otherwise its record is
   * deleted and its dates are returned.
   */
  function Checkin(catalogs: Table<Catalog>, faults: StoreFaults, t: map<string, Activity>, bookId: string): (s: Step)
    ensures s.result.bookId == bookId
    ensures forall k :: k != bookId ==> SameAt(s.table, t, k)
  {
    match FetchCatalogSafely(catalogs, bookId)
    case None => Step(NoteOnly(bookId, Unregistered), t)
    case Some(catalog) =>
      if bookId in faults.get then Step(ErrorResult(bookId, faults.get[bookId]), t)
      else if bookId !in t then Step(NoteOnly(bookId, AlreadyCheckedIn), t)
      else if bookId in faults.delete then Step(ErrorResult(bookId, faults.delete[bookId]), t)
      else
        var existing := t[bookId];
        Step(BookOperationResult(bookId, catalog.title, Some(existing.checkOutDate), Some(existing.dueDate), Message(Ok)), t - {bookId})
  }

  /** Checkout and checkin read the table only at their own bookId. */
  lemma StepsAreLocal(catalogs: Table<Catalog>, faults: StoreFaults, t1: map<string, Activity>, t2: map<string, Activity>,
                      accountNumber: string, bookId: string, today: Day)
    requires bookId in t1 <==> bookId in t2
    requires bookId in t1 ==> t1[bookId] == t2[bookId]
    ensures Checkout(catalogs, faults, t1, accountNumber, bookId, today).result == Checkout(catalogs, faults, t2, accountNumber, bookId, today).result
    ensures Checkin(catalogs, faults, t1, bookId).result == Checkin(catalogs, faults, t2, bookId).result
  {
  }

  /** What checkout and checkin leave at their own bookId depends only on the record there. */
  lemma StepsWriteOwnKey(catalogs: Table<Catalog>, faults: StoreFaults, t1: map<string, Activity>, t2: map<string, Activity>,
                         accountNumber: string, bookId: string, today: Day)
    requires SameAt(t1, t2, bookId)
    ensures SameAt(Checkout(catalogs, faults, t1, accountNumber, bookId, today).table,
                   Checkout(catalogs, faults, t2, accountNumber, bookId, today).table, bookId)
    ensures SameAt(Checkin(catalogs, faults, t1, bookId).table, Checkin(catalogs, faults, t2, bookId).table, bookId)
  {
  }

  // ---------------------------------------------------------------------
  // Batches
  // ---------------------------------------------------------------------

  /** The results of a batch, one per copy, and the activity table after it. */
  datatype Batch = Batch(results: seq<BookOperationResult>, table: map<string, Activity>)

  /** One copy's operation: what it yields for a bookId on a given table. */
  type StepFn = (map<string, Activity>, string) -> Step

  /** A step reports on its own copy and changes no other key. */
  ghost predicate Local(step: StepFn) {
    && (forall u, id :: step(u, id).result.bookId == id)
    && (forall u, id, k :: k != id ==> SameAt(step(u, id).table, u, k))
  }

  /** A step's result depends on the table only through its own key. */
  ghost predicate ReadsOwnKey(step: StepFn) {
    forall u1, u2, id :: SameAt(u1, u2, id) ==> step(u1, id).result == step(u2, id).result
  }

  /** What a step leaves at its own key depends on the table only through that key. */
  ghost predicate WritesOwnKey(step: StepFn) {
    forall u1, u2, id :: SameAt(u1, u2, id) ==> SameAt(step(u1, id).table, step(u2, id).table, id)
  }

  /**
   * A batch: each copy in input order, each on the table the ones before it
   * left. A local step gives one result per copy and leaves the keys outside
   * the batch alone.
   */
  function RunBatch(step: StepFn, t: map<string, Activity>, bookIds: seq<string>): (b: Batch)
    requires Local(step)
    ensures |b.results| == |bookIds|
    ensures forall i :: 0 <= i < |bookIds| ==> b.results[i].bookId == bookIds[i]
    ensures forall k :: k !in bookIds ==> SameAt(b.table, t, k)
    decreases |bookIds|
  {
    if |bookIds| == 0 then Batch([], t)
    else
      var n := |bookIds| - 1;
      var prefix := bookIds[..n];
      var b := RunBatch(step, t, prefix);
      var s := step(b.table, bookIds[n]);
      assert forall i :: 0 <= i < n ==> prefix[i] == bookIds[i];
      assert forall k :: k !in bookIds ==> k !in prefix && k != bookIds[n];
      assert forall k :: k !in bookIds ==> SameAt(s.table, b.table, k) && SameAt(b.table, t, k);
      Batch(b.results + [s.result], s.table)
  }

  function CheckoutStep(catalogs: Table<Catalog>, faults: StoreFaults, accountNumber: string, today: Day): StepFn {
    (u, id) => Checkout(catalogs, faults, u, accountNumber, id, today)
  }

  function CheckinStep(catalogs: Table<Catalog>, faults: StoreFaults): StepFn {
    (u, id) => Checkin(catalogs, faults, u, id)
  }

  /** Checkout is a local step that reads and writes only its own key. */
  lemma CheckoutStepIsLocal(catalogs: Table<Catalog>, faults: StoreFaults, accountNumber: string, today: Day)
    ensures Local(CheckoutStep(catalogs, faults, accountNumber, today))
    ensures ReadsOwnKey(CheckoutStep(catalogs, faults, accountNumber, today))
    ensures WritesOwnKey(CheckoutStep(catalogs, faults, accountNumber, today))
  {
    var co := CheckoutStep(catalogs, faults, accountNumber, today);
    forall u, id
      ensures co(u, id) == Checkout(catalogs, faults, u, accountNumber, id, today)
    {
    }
    forall u1, u2, id | SameAt(u1, u2, id)
      ensures co(u1, id).result == co(u2, id).result
      ensures SameAt(co(u1, id).table, co(u2, id).table, id)
    {
      StepsAreLocal(catalogs, faults, u1, u2, accountNumber, id, today);
      StepsWriteOwnKey(catalogs, faults, u1, u2, accountNumber, id, today);
    }
  }

  /** Checkin is a local step that reads and writes only its own key. */
  lemma CheckinStepIsLocal(catalogs: Table<Catalog>, faults: StoreFaults)
    ensures Local(CheckinStep(catalogs, faults))
    ensures ReadsOwnKey(CheckinStep(catalogs, faults))
    ensures WritesOwnKey(CheckinStep(catalogs, faults))
  {
    var ci := CheckinStep(catalogs, faults);
    forall u, id
      ensures ci(u, id) == Checkin(catalogs, faults, u, id)
    {
    }
    forall u1, u2, id | SameAt(u1, u2, id)
      ensures ci(u1, id).result == ci(u2, id).result
      ensures SameAt(ci(u1, id).table, ci(u2, id).table, id)
    {
      StepsAreLocal(catalogs, faults, u1, u2, "", id, 0);
      StepsWriteOwnKey(catalogs, faults, u1, u2, "", id, 0);
    }
  }

  /** A checkout batch. */
  function CheckoutAll(catalogs: Table<Catalog>, faults: StoreFaults, t: map<string, Activity>,
                       accountNumber: string, bookIds: seq<string>, today: Day): (b: Batch)
    ensures |b.results| == |bookIds|
    ensures forall i :: 0 <= i < |bookIds| ==> b.results[i].bookId == bookIds[i]
    ensures forall k :: k !in bookIds ==> SameAt(b.table, t, k)
  {
    CheckoutStepIsLocal(catalogs, faults, accountNumber, today);
    RunBatch(CheckoutStep(catalogs, faults, accountNumber, today), t, bookIds)
  }

  /** A checkin batch. */
  function CheckinAll(catalogs: Table<Catalog>, faults: StoreFaults, t: map<string, Activity>, bookIds: seq<string>): (b: Batch)
    ensures |b.results| == |bookIds|
    ensures forall i :: 0 <= i < |bookIds| ==> b.results[i].bookId == bookIds[i]
    ensures forall k :: k !in bookIds ==> SameAt(b.table, t, k)
  {
    CheckinStepIsLocal(catalogs, faults);
    RunBatch(CheckinStep(catalogs, faults), t, bookIds)
  }

  ghost predicate Distinct(ids: seq<string>) {
    forall i, j :: 0 <= i < j < |ids| ==> ids[i] != ids[j]
  }

  /**
   * With distinct bookIds and a step that reads only its own key, no copy
   * sees another's change: every result is the one the copy gets alone on
   * the original table, whatever the order the batch runs in.
   */
  lemma {:induction false} DistinctRunIsElementwise(step: StepFn, t: map<string, Activity>, bookIds: seq<string>)
    requires Local(step) && ReadsOwnKey(step) && Distinct(bookIds)
    ensures forall i :: 0 <= i < |bookIds| ==> RunBatch(step, t, bookIds).results[i] == step(t, bookIds[i]).result
    decreases |bookIds|
  {
    if |bookIds| > 0 {
      var n := |bookIds| - 1;
      var prefix := bookIds[..n];
      assert Distinct(prefix);
      DistinctRunIsElementwise(step, t, prefix);
      assert bookIds[n] !in prefix;
      var b := RunBatch(step, t, prefix);
      assert RunBatch(step, t, bookIds).results == b.results + [step(b.table, bookIds[n]).result];
      assert SameAt(b.table, t, bookIds[n]);
      assert forall i :: 0 <= i < n ==> prefix[i] == bookIds[i];
    }
  }

  /** Distinct batches of checkouts and of checkins are elementwise. */
  lemma DistinctBatchIsElementwise(catalogs: Table<Catalog>, faults: StoreFaults, t: map<string, Activity>,
                                   accountNumber: string, bookIds: seq<string>, today: Day)
    requires Distinct(bookIds)
    ensures forall i :: 0 <= i < |bookIds| ==>
      CheckoutAll(catalogs, faults, t, accountNumber, bookIds, today).results[i] == Checkout(catalogs, faults, t, accountNumber, bookIds[i], today).result
    ensures forall i :: 0 <= i < |bookIds| ==>
      CheckinAll(catalogs, faults, t, bookIds).results[i] == Checkin(catalogs, faults, t, bookIds[i]).result
  {
    CheckoutStepIsLocal(catalogs, faults, accountNumber, today);
    CheckinStepIsLocal(catalogs, faults);
    DistinctRunIsElementwise(CheckoutStep(catalogs, faults, accountNumber, today), t, bookIds);
    DistinctRunIsElementwise(CheckinStep(catalogs, faults), t, bookIds);
  }

  /**
   * With distinct bookIds and a step that writes only its own key, the table
   * a batch leaves holds at each of its bookIds what that copy's step leaves
   * there alone on the original table; keys outside the batch are untouched
   * (`RunBatch`). So the final table does not depend on the order either.
   */
  lemma {:induction false} DistinctRunTableIsElementwise(step: StepFn, t: map<string, Activity>, bookIds: seq<string>)
    requires Local(step) && WritesOwnKey(step) && Distinct(bookIds)
    ensures forall i :: 0 <= i < |bookIds| ==> SameAt(RunBatch(step, t, bookIds).table, step(t, bookIds[i]).table, bookIds[i])
    decreases |bookIds|
  {
    if |bookIds| > 0 {
      var n := |bookIds| - 1;
      var prefix := bookIds[..n];
      assert Distinct(prefix);
      DistinctRunTableIsElementwise(step, t, prefix);
      var b := RunBatch(step, t, prefix);
      var last := step(b.table, bookIds[n]);
      assert RunBatch(step, t, bookIds).table == last.table;
      assert bookIds[n] !in prefix;
      assert SameAt(b.table, t, bookIds[n]);
      assert SameAt(last.table, step(t, bookIds[n]).table, bookIds[n]);
      forall i | 0 <= i < n
        ensures SameAt(last.table, step(t, bookIds[i]).table, bookIds[i])
      {
        assert prefix[i] == bookIds[i] != bookIds[n];
        assert SameAt(last.table, b.table, bookIds[i]);
        assert SameAt(b.table, step(t, prefix[i]).table, prefix[i]);
      }
    }
  }

  /**
   * The table a distinct batch of checkouts or of checkins leaves holds, at
   * each of its bookIds, what that copy's operation alone leaves there.
   */
  lemma DistinctBatchTableIsElementwise(catalogs: Table<Catalog>, faults: StoreFaults, t: map<string, Activity>,
                                        accountNumber: string, bookIds: seq<string>, today: Day)
    requires Distinct(bookIds)
    ensures forall i :: 0 <= i < |bookIds| ==>
      SameAt(CheckoutAll(catalogs, faults, t, accountNumber, bookIds, today).table,
             Checkout(catalogs, faults, t, accountNumber, bookIds[i], today).table, bookIds[i])
    ensures forall i :: 0 <= i < |bookIds| ==>
      SameAt(CheckinAll(catalogs, faults, t, bookIds).table, Checkin(catalogs, faults, t, bookIds[i]).table, bookIds[i])
  {
    CheckoutStepIsLocal(catalogs, faults, accountNumber, today);
    CheckinStepIsLocal(catalogs, faults);
    DistinctRunTableIsElementwise(CheckoutStep(catalogs, faults, accountNumber, today), t, bookIds);
    DistinctRunTableIsElementwise(CheckinStep(catalogs, faults), t, bookIds);
  }

  const MissingArguments := "Account number and book IDs must be provided"

  function UnknownAccount(accountNumber: string): string {
    "Account not found: " + accountNumber
  }

  /** The argument check of checkoutBooks, before any copy is processed. */
  function CheckoutArgumentError(accounts: Table<Account>, accountNumber: Option<string>, bookIds: Option<seq<string>>): (r: Option<Throwable>)
    ensures r.None? <==> accountNumber.Some? && bookIds.Some? && |bookIds.value| > 0 && AccountExists(accounts, accountNumber.value)
    ensures r.Some? ==> Top(r.value).kind == IllegalArgument && Top(r.value).cause.None?
  {
    if accountNumber.None? || bookIds.None? || |bookIds.value| == 0 then Some(New(IllegalArgument, Some(MissingArguments)))
    else if !AccountExists(accounts, accountNumber.value) then Some(New(IllegalArgument, Some(UnknownAccount(accountNumber.value))))
    else None
  }

  /** checkinBooks(null): streaming a null list throws; its generated message is not modelled. */
  function NullBookIds(): Throwable {
    New(NullPointer, None)
  }

  // ---------------------------------------------------------------------
  // The service and its table
  // ---------------------------------------------------------------------

  /** All items of a paged query, page after page. */
  function Flatten(pages: seq<seq<Activity>>): (items: seq<Activity>)
    decreases |pages|
  {
    if |pages| == 0 then [] else Flatten(pages[..|pages| - 1]) + pages[|pages| - 1]
  }

  /** Flattening respects concatenation of the page lists, and loses or adds no item. */
  lemma {:induction false} FlattenConcat(p: seq<seq<Activity>>, q: seq<seq<Activity>>)
    ensures Flatten(p + q) == Flatten(p) + Flatten(q)
    decreases |q|
  {
    if |q| > 0 {
      var n := |q| - 1;
      FlattenConcat(p, q[..n]);
      assert (p + q)[..|p + q| - 1] == p + q[..n];
    } else {
      assert p + q == p;
    }
  }

  lemma {:induction false} FlattenMembers(pages: seq<seq<Activity>>, x: Activity)
    ensures x in Flatten(pages) <==> exists i :: 0 <= i < |pages| && x in pages[i]
    decreases |pages|
  {
    if |pages| > 0 {
      var n := |pages| - 1;
      FlattenMembers(pages[..n], x);
      assert forall i :: 0 <= i < n ==> pages[..n][i] == pages[i];
    }
  }

  class ActivityService {
    /** The activity table, by bookId. */
    var activities: map<string, Activity>
    const catalogs: Table<Catalog>
    const accounts: Table<Account>
    const faults: StoreFaults

    ghost predicate Valid()
      reads this
    {
      WellKeyed(activities)
    }

    constructor (catalogs: Table<Catalog>, accounts: Table<Account>, faults: StoreFaults, activities: map<string, Activity>)
      requires WellKeyed(activities)
      ensures Valid()
      ensures this.catalogs == catalogs && this.accounts == accounts && this.faults == faults && this.activities == activities
    {
      this.catalogs := catalogs;
      this.accounts := accounts;
      this.faults := faults;
      this.activities := activities;
    }

    /** getByBookId: the record stored under the bookId, or null. */
    method GetByBookId(bookId: string) returns (r: Result<Option<Activity>, Throwable>)
      ensures bookId in faults.get ==> r == Failure(faults.get[bookId])
      ensures bookId !in faults.get ==> r.Success? && (r.value.Some? <==> bookId in activities)
      ensures r.Success? && r.value.Some? ==> r.value.value == activities[bookId]
    {
      if bookId in faults.get {
        return Failure(faults.get[bookId]);
      }
      return Success(if bookId in activities then Some(activities[bookId]) else None);
    }

    /** isBookCheckedOut: whether a record is stored under the bookId. */
    method IsBookCheckedOut(bookId: string) returns (r: Result<bool, Throwable>)
      ensures r.Failure? <==> bookId in faults.get
      ensures r.Failure? ==> r.error == faults.get[bookId]
      ensures r.Success? ==> (r.value <==> bookId in activities)
    {
      var existing := GetByBookId(bookId);
      if existing.Failure? {
        return Failure(existing.error);
      }
      return Success(existing.value.Some?);
    }

    /** putItem: stores the record under its bookId, replacing any record there. */
    method PutItem(item: Activity) returns (err: Option<Throwable>)
      modifies this
      ensures err == (if item.bookId in faults.put then Some(faults.put[item.bookId]) else None)
      ensures err.None? ==> activities == old(activities)[item.bookId := item]
      ensures err.Some? ==> activities == old(activities)
    {
      if item.bookId in faults.put {
        return Some(faults.put[item.bookId]);
      }
      activities := activities[item.bookId := item];
      return None;
    }

    /** deleteItem: removes the record stored under the item's bookId. */
    method DeleteItem(item: Activity) returns (err: Option<Throwable>)
      modifies this
      ensures err == (if item.bookId in faults.delete then Some(faults.delete[item.bookId]) else None)
      ensures err.None? ==> activities == old(activities) - {item.bookId}
      ensures err.Some? ==> activities == old(activities)
    {
      if item.bookId in faults.delete {
        return Some(faults.delete[item.bookId]);
      }
      activities := activities - {item.bookId};
      return None;
    }

    /** deleteByBookId: removes the record if there is one; an absent bookId is a no-op. */
    method DeleteByBookId(bookId: string) returns (err: Option<Throwable>)
      requires Valid()
      modifies this
      ensures Valid()
      ensures bookId in faults.get ==> err == Some(faults.get[bookId])
      ensures bookId !in faults.get && bookId in old(activities) && bookId in faults.delete ==> err == Some(faults.delete[bookId])
      ensures err.Some? ==> activities == old(activities)
      ensures err.None? <==> bookId !in faults.get && !(bookId in old(activities) && bookId in faults.delete)
      ensures err.None? ==> activities == old(activities) - {bookId}
    {
      var existing := GetByBookId(bookId);
      if existing.Failure? {
        return Some(existing.error);
      }
      if existing.value.Some? {
        err := DeleteItem(existing.value.value);
      } else {
        assert activities - {bookId} == activities;
        err := None;
      }
    }

    /** processCheckout, step by step against the store. */
    method ProcessCheckout(accountNumber: string, bookId: string, today: Day) returns (r: BookOperationResult)
      requires Valid()
      modifies this
      ensures Valid()
      ensures Step(r, activities) == Checkout(catalogs, faults, old(activities), accountNumber, bookId, today)
    {
      var catalog := FetchCatalogSafely(catalogs, bookId);
      if catalog.None? {
        return NoteOnly(bookId, Unregistered);
      }
      var title := catalog.value.title;
      var due := today + LoanPeriodDays;
      var checkedOut := IsBookCheckedOut(bookId);
      if checkedOut.Failure? {
        return ErrorResult(bookId, checkedOut.error);
      }
      if checkedOut.value {
        var err := DeleteByBookId(bookId);
        if err.Some? {
          return ErrorResult(bookId, err.value);
        }
      }
      var loan := Activity(bookId, ExtractIsbn(bookId), None, accountNumber, today, due);
      var err := PutItem(loan);
      if err.Some? {
        return ErrorResult(bookId, err.value);
      }
      return BookOperationResult(bookId, title, Some(today), Some(due), Message(if checkedOut.value then ReplacedExisting else Ok));
    }

    /** processCheckin, step by step against the store. */
    method ProcessCheckin(bookId: string) returns (r: BookOperationResult)
      requires Valid()
      modifies this
      ensures Valid()
      ensures Step(r, activities) == Checkin(catalogs, faults, old(activities), bookId)
    {
      var catalog := FetchCatalogSafely(catalogs, bookId);
      if catalog.None? {
        return NoteOnly(bookId, Unregistered);
      }
      var title := catalog.value.title;
      var existing := GetByBookId(bookId);
      if existing.Failure? {
        return ErrorResult(bookId, existing.error);
      }
      if existing.value.None? {
        return NoteOnly(bookId, AlreadyCheckedIn);
      }
      var record := existing.value.value;
      var err := DeleteByBookId(bookId);
      if err.Some? {
        return ErrorResult(bookId, err.value);
      }
      return BookOperationResult(bookId, title, Some(record.checkOutDate), Some(record.dueDate), Message(Ok));
    }

    /**
     * checkoutBooks: the argument check, then one result per copy in input
     * order; the pool's concurrency is not modelled, the copies run in order.
     */
    method CheckoutBooks(accountNumber: Option<string>, bookIds: Option<seq<string>>, today: Day)
      returns (r: Result<seq<BookOperationResult>, Throwable>)
      requires Valid()
      modifies this
      ensures Valid()
      ensures CheckoutArgumentError(accounts, accountNumber, bookIds).Some? ==>
        r == Failure(CheckoutArgumentError(accounts, accountNumber, bookIds).value) && activities == old(activities)
      ensures CheckoutArgumentError(accounts, accountNumber, bookIds).None? ==>
        var b := CheckoutAll(catalogs, faults, old(activities), accountNumber.value, bookIds.value, today);
        r == Success(b.results) && activities == b.table
    {
      var argumentError := CheckoutArgumentError(accounts, accountNumber, bookIds);
      if argumentError.Some? {
        return Failure(argumentError.value);
      }
      var account := accountNumber.value;
      var ids := bookIds.value;
      var results: seq<BookOperationResult> := [];
      var i := 0;
      while i < |ids|
        invariant 0 <= i <= |ids| && Valid()
        invariant Batch(results, activities) == CheckoutAll(catalogs, faults, old(activities), account, ids[..i], today)
      {
        assert ids[..i + 1][..i] == ids[..i];
        var result := ProcessCheckout(account, ids[i], today);
        results := results + [result];
        i := i + 1;
      }
      assert ids[..|ids|] == ids;
      return Success(results);
    }

    /** checkinBooks: one result per copy in input order; a null list throws. */
    method CheckinBooks(bookIds: Option<seq<string>>) returns (r: Result<seq<BookOperationResult>, Throwable>)
      requires Valid()
      modifies this
      ensures Valid()
      ensures bookIds.None? ==> r == Failure(NullBookIds()) && activities == old(activities)
      ensures bookIds.Some? ==>
        var b := CheckinAll(catalogs, faults, old(activities), bookIds.value);
        r == Success(b.results) && activities == b.table
    {
      if bookIds.None? {
        return Failure(NullBookIds());
      }
      var ids := bookIds.value;
      var results: seq<BookOperationResult> := [];
      var i := 0;
      while i < |ids|
        invariant 0 <= i <= |ids| && Valid()
        invariant Batch(results, activities) == CheckinAll(catalogs, faults, old(activities), ids[..i])
      {
        assert ids[..i + 1][..i] == ids[..i];
        var result := ProcessCheckin(ids[i]);
        results := results + [result];
        i := i + 1;
      }
      assert ids[..|ids|] == ids;
      return Success(results);
    }

    /** collectItems: the items of every page, page after page. */
    static method CollectItems(pages: seq<seq<Activity>>) returns (result: seq<Activity>)
      ensures result == Flatten(pages)
    {
      result := [];
      for i := 0 to |pages|
        invariant result == Flatten(pages[..i])
      {
        assert pages[..i + 1][..i] == pages[..i];
        result := result + pages[i];
      }
      assert pages[..|pages|] == pages;
    }
  }

  // ---------------------------------------------------------------------
  // Properties of checkout and checkin
  // ---------------------------------------------------------------------

  /**
   * A copy whose isbn the catalog does not list, or whose catalog read fails,
   * is reported as unregistered and nothing is written.
   */
  lemma UnregisteredWritesNothing(catalogs: Table<Catalog>, faults: StoreFaults, t: map<string, Activity>,
                                  accountNumber: string, bookId: string, today: Day)
    requires ExtractIsbn(bookId) in catalogs.failing || ExtractIsbn(bookId) !in catalogs.items
    ensures Checkout(catalogs, faults, t, accountNumber, bookId, today) == Step(NoteOnly(bookId, Unregistered), t)
    ensures Checkin(catalogs, faults, t, bookId) == Step(NoteOnly(bookId, Unregistered), t)
  {
  }

  /**
   * A registered copy checked out without a store failure is on loan to the
   * account from today for three weeks, and the note says whether it
   * replaced an earlier loan.
   */
  lemma CheckoutRecordsLoan(catalogs: Table<Catalog>, faults: StoreFaults, t: map<string, Activity>,
                            accountNumber: string, bookId: string, today: Day)
    requires FetchCatalogSafely(catalogs, bookId).Some?
    requires bookId !in faults.get && bookId !in faults.delete && bookId !in faults.put
    ensures var s := Checkout(catalogs, faults, t, accountNumber, bookId, today);
      && s.table == t[bookId := Activity(bookId, ExtractIsbn(bookId), None, accountNumber, today, today + 21)]
      && s.result.checkOutDate == Some(today) && s.result.dueByDate == Some(today + 21)
      && (s.result.notes == Message(ReplacedExisting) <==> bookId in t)
      && (s.result.notes == Message(Ok) <==> bookId !in t)
  {
    var s := Checkout(catalogs, faults, t, accountNumber, bookId, today);
    MessagesDistinct(ReplacedExisting, Ok);
    var loan := Activity(bookId, ExtractIsbn(bookId), None, accountNumber, today, today + 21);
    if bookId in t {
      assert (t - {bookId})[bookId := loan] == t[bookId := loan];
    }
  }

  /**
   * A failed put after the old record was deleted is not rolled back: the
   * copy is left with no record and the note carries the failure's message.
   */
  lemma FailedPutKeepsDelete(catalogs: Table<Catalog>, faults: StoreFaults, t: map<string, Activity>,
                             accountNumber: string, bookId: string, today: Day)
    requires FetchCatalogSafely(catalogs, bookId).Some? && bookId in t
    requires bookId !in faults.get && bookId !in faults.delete && bookId in faults.put
    ensures var s := Checkout(catalogs, faults, t, accountNumber, bookId, today);
      && s.table == t - {bookId}
      && s.result == ErrorResult(bookId, faults.put[bookId])
      && FromMessage(s.result.notes).None?
  {
    ErrorTextIsNoNote(Text(Top(faults.put[bookId]).message));
  }

  /** Any failing read leaves the table as it was, with an error note. */
  lemma FailedReadChangesNothing(catalogs: Table<Catalog>, faults: StoreFaults, t: map<string, Activity>,
                                 accountNumber: string, bookId: string, today: Day)
    requires FetchCatalogSafely(catalogs, bookId).Some? && bookId in faults.get
    ensures Checkout(catalogs, faults, t, accountNumber, bookId, today) == Step(ErrorResult(bookId, faults.get[bookId]), t)
    ensures Checkin(catalogs, faults, t, bookId) == Step(ErrorResult(bookId, faults.get[bookId]), t)
  {
  }

  /**
   * A failed delete of the existing record ends either operation with an
   * error note, and the record stays where it was.
   */
  lemma FailedDeleteKeepsRecord(catalogs: Table<Catalog>, faults: StoreFaults, t: map<string, Activity>,
                                accountNumber: string, bookId: string, today: Day)
    requires FetchCatalogSafely(catalogs, bookId).Some? && bookId in t
    requires bookId !in faults.get && bookId in faults.delete
    ensures Checkout(catalogs, faults, t, accountNumber, bookId, today) == Step(ErrorResult(bookId, faults.delete[bookId]), t)
    ensures Checkin(catalogs, faults, t, bookId) == Step(ErrorResult(bookId, faults.delete[bookId]), t)
  {
  }

  /** A failed put of a copy that had no record writes nothing and ends with an error note. */
  lemma FailedPutOfNewLoan(catalogs: Table<Catalog>, faults: StoreFaults, t: map<string, Activity>,
                           accountNumber: string, bookId: string, today: Day)
    requires FetchCatalogSafely(catalogs, bookId).Some? && bookId !in t
    requires bookId !in faults.get && bookId in faults.put
    ensures Checkout(catalogs, faults, t, accountNumber, bookId, today) == Step(ErrorResult(bookId, faults.put[bookId]), t)
  {
  }

  /** The title a registered copy's catalog entry gives it, or null. */
  function CatalogTitle(catalogs: Table<Catalog>, bookId: string): Option<string> {
    match FetchCatalogSafely(catalogs, bookId)
    case Some(catalog) => catalog.title
    case None => None
  }

  /**
   * Every checkout ends in one of three ways: the copy is unregistered; a
   * store operation fails and the note is "Error: " and its message; or the
   * loan is stored, noted OK or REPLACED_EXISTING, under the catalog's title.
   */
  lemma CheckoutOutcomes(catalogs: Table<Catalog>, faults: StoreFaults, t: map<string, Activity>,
                         accountNumber: string, bookId: string, today: Day)
    ensures var r := Checkout(catalogs, faults, t, accountNumber, bookId, today).result;
      || r == NoteOnly(bookId, Unregistered)
      || (bookId in faults.get && r == ErrorResult(bookId, faults.get[bookId]))
      || (bookId in faults.delete && r == ErrorResult(bookId, faults.delete[bookId]))
      || (bookId in faults.put && r == ErrorResult(bookId, faults.put[bookId]))
      || (r.notes in {Message(Ok), Message(ReplacedExisting)} && r.title == CatalogTitle(catalogs, bookId))
  {
  }

  /**
   * Every checkin ends in one of four ways: unregistered; already checked
   * in; a failed read or delete, noted "Error: " and its message; or OK,
   * under the catalog's title.
   */
  lemma CheckinOutcomes(catalogs: Table<Catalog>, faults: StoreFaults, t: map<string, Activity>, bookId: string)
    ensures var r := Checkin(catalogs, faults, t, bookId).result;
      || r == NoteOnly(bookId, Unregistered)
      || r == NoteOnly(bookId, AlreadyCheckedIn)
      || (bookId in faults.get && r == ErrorResult(bookId, faults.get[bookId]))
      || (bookId in faults.delete && r == ErrorResult(bookId, faults.delete[bookId]))
      || (r.notes == Message(Ok) && r.title == CatalogTitle(catalogs, bookId))
  {
  }

  /**
   * The notes tell the outcomes apart: a checkout noted OK or
   * REPLACED_EXISTING is a stored loan of a registered copy and carries its
   * catalog title.
   */
  lemma {:induction false} CheckoutNotesCarryTitle(catalogs: Table<Catalog>, faults: StoreFaults, t: map<string, Activity>,
                                                   accountNumber: string, bookId: string, today: Day)
    ensures var r := Checkout(catalogs, faults, t, accountNumber, bookId, today).result;
      r.notes in {Message(Ok), Message(ReplacedExisting)} ==>
        FetchCatalogSafely(catalogs, bookId).Some? && r.title == CatalogTitle(catalogs, bookId)
  {
    if FetchCatalogSafely(catalogs, bookId).None? {
      MessagesDistinct(Unregistered, Ok);
      MessagesDistinct(Unregistered, ReplacedExisting);
    } else if bookId in faults.get {
      ErrorTextIsNoNote(Text(Top(faults.get[bookId]).message));
    } else if bookId in t && bookId in faults.delete {
      ErrorTextIsNoNote(Text(Top(faults.delete[bookId]).message));
    } else if bookId in faults.put {
      ErrorTextIsNoNote(Text(Top(faults.put[bookId]).message));
    }
  }

  /** A checkin noted OK is of a registered copy and carries its catalog title. */
  lemma {:induction false} CheckinNotesCarryTitle(catalogs: Table<Catalog>, faults: StoreFaults, t: map<string, Activity>, bookId: string)
    ensures var r := Checkin(catalogs, faults, t, bookId).result;
      r.notes == Message(Ok) ==> FetchCatalogSafely(catalogs, bookId).Some? && r.title == CatalogTitle(catalogs, bookId)
  {
    if FetchCatalogSafely(catalogs, bookId).None? {
      MessagesDistinct(Unregistered, Ok);
    } else if bookId in faults.get {
      ErrorTextIsNoNote(Text(Top(faults.get[bookId]).message));
    } else if bookId !in t {
      MessagesDistinct(AlreadyCheckedIn, Ok);
    } else if bookId in faults.delete {
      ErrorTextIsNoNote(Text(Top(faults.delete[bookId]).message));
    }
  }

  /** Checking in a checked-out copy removes its record and returns its original dates. */
  lemma CheckinReturnsDates(catalogs: Table<Catalog>, faults: StoreFaults, t: map<string, Activity>, bookId: string)
    requires FetchCatalogSafely(catalogs, bookId).Some? && bookId in t
    requires bookId !in faults.get && bookId !in faults.delete
    ensures var s := Checkin(catalogs, faults, t, bookId);
      && s.table == t - {bookId}
      && s.result.checkOutDate == Some(t[bookId].checkOutDate) && s.result.dueByDate == Some(t[bookId].dueDate)
      && s.result.notes == Message(Ok)
  {
  }

  /** A registered copy that is not checked out is reported as already checked in, and nothing changes. */
  lemma CheckinOfReturnedCopy(catalogs: Table<Catalog>, faults: StoreFaults, t: map<string, Activity>, bookId: string)
    requires FetchCatalogSafely(catalogs, bookId).Some? && bookId !in t && bookId !in faults.get
    ensures Checkin(catalogs, faults, t, bookId) == Step(NoteOnly(bookId, AlreadyCheckedIn), t)
  {
  }

  /** A second checkin of the same copy reports it as already checked in. */
  lemma SecondCheckinIsAlreadyCheckedIn(catalogs: Table<Catalog>, faults: StoreFaults, t: map<string, Activity>, bookId: string)
    requires FetchCatalogSafely(catalogs, bookId).Some?
    requires bookId !in faults.get && bookId !in faults.delete
    ensures var first := Checkin(catalogs, faults, t, bookId);
      Checkin(catalogs, faults, first.table, bookId) == Step(NoteOnly(bookId, AlreadyCheckedIn), first.table)
  {
    var first := Checkin(catalogs, faults, t, bookId);
    assert bookId !in first.table;
  }

  /**
   * Checking a copy out and then in returns the loan's dates and leaves the
   * table as it was, without any earlier record of that copy.
   */
  lemma CheckoutThenCheckin(catalogs: Table<Catalog>, faults: StoreFaults, t: map<string, Activity>,
                            accountNumber: string, bookId: string, today: Day)
    requires FetchCatalogSafely(catalogs, bookId).Some?
    requires bookId !in faults.get && bookId !in faults.delete && bookId !in faults.put
    ensures var out := Checkout(catalogs, faults, t, accountNumber, bookId, today);
      var back := Checkin(catalogs, faults, out.table, bookId);
      && back.table == t - {bookId}
      && back.result.checkOutDate == Some(today) && back.result.dueByDate == Some(today + LoanPeriodDays)
      && back.result.notes == Message(Ok)
  {
    CheckoutRecordsLoan(catalogs, faults, t, accountNumber, bookId, today);
    var out := Checkout(catalogs, faults, t, accountNumber, bookId, today);
    assert out.table - {bookId} == t - {bookId};
  }

  /** Checkout and checkin keep every record under its own bookId. */
  lemma StepsKeepTableWellKeyed(catalogs: Table<Catalog>, faults: StoreFaults, t: map<string, Activity>,
                                accountNumber: string, bookId: string, today: Day)
    requires WellKeyed(t)
    ensures WellKeyed(Checkout(catalogs, faults, t, accountNumber, bookId, today).table)
    ensures WellKeyed(Checkin(catalogs, faults, t, bookId).table)
  {
  }

  /** A checkout batch without an account number, or with a null or empty list, is rejected as missing arguments. */
  lemma EmptyCheckoutIsRejected(accounts: Table<Account>, accountNumber: Option<string>, bookIds: Option<seq<string>>)
    ensures CheckoutArgumentError(accounts, accountNumber, Some([])) == Some(New(IllegalArgument, Some(MissingArguments)))
    ensures CheckoutArgumentError(accounts, accountNumber, None) == Some(New(IllegalArgument, Some(MissingArguments)))
    ensures CheckoutArgumentError(accounts, None, bookIds) == Some(New(IllegalArgument, Some(MissingArguments)))
  {
  }

  /** A checkout batch for an account that does not exist, or whose read fails, is rejected naming the account. */
  lemma UnknownAccountIsRejected(accounts: Table<Account>, accountNumber: string, bookIds: seq<string>)
    requires |bookIds| > 0 && (accountNumber in accounts.failing || accountNumber !in accounts.items)
    ensures CheckoutArgumentError(accounts, Some(accountNumber), Some(bookIds))
      == Some(New(IllegalArgument, Some("Account not found: " + accountNumber)))
  {
  }
}
