/**
 * The stored entities (Activity.java, Catalog.java, Account.java) and the
 * key-value tables they are read from. A field the store may leave empty
 * is an Option; dates are day numbers.
 */
module Records {
  import opened Wrappers
  import opened Exceptions

  /** A calendar date as a day number; "+21 days" is addition. */
  type Day = int

  /** One checked-out copy, keyed by its bookId. */
  datatype Activity = Activity(
    bookId: string,
    isbn: string,
    title: Option<string>,
    accountNumber: string,
    checkOutDate: Day,
    dueDate: Day)

  /** One title of the catalog with the bookIds of its physical copies. */
  datatype Catalog = Catalog(
    isbn: Option<string>,
    title: Option<string>,
    authorFirstName: Option<string>,
    authorLastName: Option<string>,
    bookIds: Option<seq<string>>)

  datatype Account = Account(
    accountNumber: Option<string>,
    firstName: Option<string>,
    lastName: Option<string>,
    memberSince: Option<Day>)

  /**
   * A read-only table or index of the store: the items it holds by key, and
   * the keys whose read fails, with the exception the read raises.
   */
  datatype Table<V> = Table(items: map<string, V>, failing: map<string, Throwable>)

  /** A read by key: the failure wins over the item; an absent key reads as null. */
  function Lookup<V>(t: Table<V>, key: string): (r: Result<Option<V>, Throwable>)
    ensures r.Failure? <==> key in t.failing
    ensures r.Success? ==> (r.value.Some? <==> key in t.items)
    ensures r.Success? && r.value.Some? ==> r.value.value == t.items[key]
  {
    if key in t.failing then Failure(t.failing[key])
    else if key in t.items then Success(Some(t.items[key]))
    else Success(None)
  }
}
