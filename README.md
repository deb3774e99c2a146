# Library service: a verified model of its core logic

The library service lends physical copies of catalogued books. A copy is
identified by a bookId such as `9781234567897.2`, whose text before the first
`.` is the ISBN of its catalog entry. Three REST controllers front three
services:

- **ActivityService** checks batches of copies out to an account and back in.
  It keeps one activity record per checked-out copy and reports a note per
  copy (`Ok`, `Book was already checked in`, ...).
- **CatalogService** looks up catalog entries by ISBN or title and searches by
  author. Each response carries the number of copies still available.
- **AccountService** looks up an account together with the books it has
  borrowed.

Every controller endpoint runs its service call asynchronously under a
deadline and hands failures to a global error advice. The advice turns them
into HTTP replies.

The model is written in Dafny, one module per source component:

| module | file | models |
|---|---|---|
| Exceptions | exceptions.dfy | exception objects and their cause chains; `ExceptionUtils.unwrap` as a loop with a visited set, plus `unwrapAndCast` and `isCausedBy` |
| ErrorAdvice | advice.dfy | the `GlobalControllerAdvice` handlers and the choice among them |
| Notes | notes.dfy | the `BookOperationNote` messages |
| Concurrent | concurrent.dfy | the observable contract of `ConcurrentUtils.parallelMap` |
| Records, Wrappers, Strings | records.dfy, wrappers.dfy, strings.dfy | the stored entities, read-only tables, null as `Option`, thrown exceptions as `Result`, `String.join` |
| Activities | activity_service.dfy | `ActivityService`: a class whose `activities` map is the activity table, changed in place by its methods |
| Catalogs | catalog_service.dfy | `CatalogService`, with `CatalogResponse` as a class whose availability is set in place |
| Accounts | account_service.dfy | `AccountService` |
| SearchExpressions | expression_builder.dfy | `CatalogSearchExpressionBuilder.from`, built step by step |
| MetricTags | metric_tags.dfy | the tag parsing and status mapping of `AbstractMethodTimer` |
| AsyncCompletion | completion.dfy | the completion chain the controllers share: `orTimeout`, the `handleAsync` callback, and Spring's answer to the future |
| ActivityApi, CatalogApi, AccountApi | activity_api.dfy, catalog_api.dfy, account_api.dfy | the three controllers |

Everything outside the code is an input to the model:

- **The store.** The activity table is a map field of the service. The catalog
  table, the account table and the two activity indexes are read-only
  `Table`s. A `Table` lists the keys whose read fails, with the exception each
  read raises.
- **Store failures on the activity table** come from a fault plan
  (`StoreFaults`). It names, per bookId, the exception that `getItem`,
  `putItem` or `deleteItem` raises.
- **Today's date** is a day number.
- **The deadline** is a flag: it says whether `orTimeout` fired before the
  service call finished.

An exception is a node in a finite graph, and its cause is a link to another
node. Unwrapping can therefore be stated, and proved to terminate, on cyclic
chains as well as on finite ones.

## Model

| member | source | states |
|---|---|---|
| `Exceptions.New` | src/main/java/com/loudent/library/service/account/AccountService.java:42 | A freshly thrown exception is a single object of its class, with its message and without a cause. |
| `Exceptions.Wrap` | src/main/java/com/loudent/library/service/account/AccountService.java:48 | `new RuntimeException(message, e)` adds one object whose cause is the wrapped exception, and it leaves every existing object unchanged. |
| `Wrappers.Text` | src/main/java/com/loudent/library/service/account/AccountService.java:48 | Concatenating a string writes its text, or "null" for a null reference. |
| `Exceptions.Unwrap` | src/main/java/com/loudent/library/api/error/ExceptionUtils.java:13-19 | The loop with its visited set returns exactly `Innermost(e)`: the walk that follows cause links until there is no cause or the cause was already passed. It terminates because the number of unvisited objects decreases. |
| `Exceptions.UnwrapWithoutCause` | src/main/java/com/loudent/library/api/error/ExceptionUtils.java:15-19 | An exception without a cause unwraps to itself. |
| `Exceptions.UnwrapFollowsChain` | src/main/java/com/loudent/library/api/error/ExceptionUtils.java:15-18 | Along any chain of distinct causes that ends, unwrap returns the last object, through any number of wrappers. |
| `Exceptions.UnwrapFromFollowsChain` | src/main/java/com/loudent/library/api/error/ExceptionUtils.java:15-18 | The same, for a walk that has already passed some other objects. |
| `Exceptions.UnwrapSeesThroughWrap` | src/main/java/com/loudent/library/api/error/ExceptionUtils.java:15-18 | Wrapping an exception in a new one does not change what it unwraps to. |
| `Exceptions.UnwrapSeesThroughCompletion` | src/main/java/com/loudent/library/api/error/ExceptionUtils.java:15-18 | A failed future's CompletionException unwraps to the same root as the exception it holds. |
| `Exceptions.CauseOfWrap` | src/main/java/com/loudent/library/api/error/ExceptionUtils.java:15-18 | The cause of a new wrapper is the wrapped object: same node, same root. |
| `Exceptions.UnwrapStopsOnCycle` | src/main/java/com/loudent/library/api/error/ExceptionUtils.java:14-18 | On the cycle a → b → a, unwrap terminates and returns b. |
| `Exceptions.UnwrapTwice` | src/main/java/com/loudent/library/api/error/ExceptionUtils.java:13-19 | Unwrapping twice changes nothing when the chain ends. On the cycle, unwrapping b again returns a, so unwrap is not idempotent there. |
| `Exceptions.TrailFromIsChain` | src/main/java/com/loudent/library/api/error/ExceptionUtils.java:15-18 | The objects the walk passes form a cause chain, and the walk stops only at the end of the chain or on a revisit. |
| `Exceptions.UnwrapResultReachable` | src/main/java/com/loudent/library/api/error/ExceptionUtils.java:15-19 | The result is reachable from the input through cause links, and its own cause is either absent or an object the walk already passed. |
| `Exceptions.UnwrapAndCast` | src/main/java/com/loudent/library/api/error/ExceptionUtils.java:24-27 | It returns the unwrapped exception exactly when that exception is an instance of the class, and null otherwise. |
| `Exceptions.IsCausedBy` | src/main/java/com/loudent/library/api/error/ExceptionUtils.java:30-32 | It holds exactly when `unwrapAndCast` returns non-null, that is, when the unwrapped exception is an instance of the class. |
| `Exceptions.IsCausedByThroughWrappers` | src/main/java/com/loudent/library/api/error/ExceptionUtils.java:30-32 | `isCausedBy` sees through a RuntimeException inside a CompletionException to the original class. |
| `Exceptions.AsCompletion` | src/main/java/com/loudent/library/util/ConcurrentUtils.java:18-23 | What a failed future holds is always a CompletionException. It is the exception itself if that already is one. Otherwise it is one new object whose cause is the exception, added to the exception's objects. |
| `ErrorAdvice.BuildError` | src/main/java/com/loudent/library/api/error/GlobalControllerAdvice.java:84-87 | The body's code equals the HTTP status, and the message is passed through. |
| `ErrorAdvice.FirstDetail` | src/main/java/com/loudent/library/api/error/GlobalControllerAdvice.java:33-43 | The text is the first "field: message", or "Invalid request" when there are no field errors. |
| `ErrorAdvice.Classify` | src/main/java/com/loudent/library/api/error/GlobalControllerAdvice.java:21-87 | Every reply's body code equals its status, and the status is one of 400, 404, 408 or 500. 408 is returned exactly for a TimeoutException. 400 is returned exactly for a field-validation failure, an IllegalArgumentException or a constraint violation. 404 is returned exactly for a NotFoundException, or for an unhandled class whose unwrapped root is a NotFoundException. Each handler's message: the timeout text; the NotFoundException's own message; "Argument error: " and the message; "Validation error: " and the first "field: message" (or "Invalid request"); and for every other class the catch-all handler's reply. |
| `ErrorAdvice.ClassifyByTopAndRoot` | src/main/java/com/loudent/library/api/error/GlobalControllerAdvice.java:21-82 | The reply depends only on the outermost exception and on its unwrapped root. |
| `ErrorAdvice.HandleUnhandled` | src/main/java/com/loudent/library/api/error/GlobalControllerAdvice.java:64-82 | The catch-all handler as intended: a NotFound root is delegated to `handleNotFound` with the root's message; any other root gets 500 "An unexpected error occurred.". |
| `ErrorAdvice.HandleUnhandledAsWritten` | src/main/java/com/loudent/library/api/error/GlobalControllerAdvice.java:64-82 | The catch-all handler as written. It gives no reply exactly when the root is not a NotFound and has a null message, because the `Map.of` call at line 74 rejects the null. |
| `ErrorAdvice.UnhandledAsWrittenAgrees` | src/main/java/com/loudent/library/api/error/GlobalControllerAdvice.java:64-82 | Whenever the log argument can be built, the as-written handler replies exactly as the intended one. |
| `ErrorAdvice.UnhandledAsWrittenFailsWithoutMessage` | src/main/java/com/loudent/library/api/error/GlobalControllerAdvice.java:72-79 | For an IllegalStateException without a message, the as-written handler has no reply, while the intended one answers 500. |
| `ErrorAdvice.WrappedTimeoutIsUnexpected` | src/main/java/com/loudent/library/api/error/GlobalControllerAdvice.java:64-82 | A TimeoutException wrapped in a RuntimeException is answered with 500, not 408. |
| `ErrorAdvice.WrappedNotFoundIsNotFound` | src/main/java/com/loudent/library/api/error/GlobalControllerAdvice.java:64-70 | A NotFoundException wrapped in a RuntimeException is answered with 404 and the NotFound's own message. |
| `Notes.Message` | src/main/java/com/loudent/library/model/BookOperationNote.java:3-18 | `getMessage` is total, and the note can be read back from its message. |
| `Notes.MessagesDistinct` | src/main/java/com/loudent/library/model/BookOperationNote.java:4-8 | Two notes have the same message exactly when they are the same note. |
| `Notes.FromMessageIsInverse` | src/main/java/com/loudent/library/model/BookOperationNote.java:4-18 | Reading a note back from a text gives a note whose message is that text. |
| `Notes.ErrorTextIsNoNote` | src/main/java/com/loudent/library/service/activity/ActivityService.java:129-132 | The "Error: ..." text a store failure leaves never reads as one of the five notes. |
| `Concurrent.ParallelMap` | src/main/java/com/loudent/library/util/ConcurrentUtils.java:17-26 | The call succeeds exactly when every element maps successfully. The output has the input's length, and `out[i]` is the mapping of `in[i]`. On failure, no list is returned: the call fails with a CompletionException around the first failing element's exception. |
| `Concurrent.FirstFailureUnique` | src/main/java/com/loudent/library/util/ConcurrentUtils.java:23 | The reported failure is determined, because there is only one first failing element. |
| `Concurrent.ParallelMapFailsAtFirst` | src/main/java/com/loudent/library/util/ConcurrentUtils.java:23 | When element k is the first to fail, the call fails with that element's exception as a CompletionException. |
| `Concurrent.ParallelMapEmpty` | src/main/java/com/loudent/library/util/ConcurrentUtils.java:17-26 | An empty input gives an empty output. |
| `Strings.JoinSnoc` | src/main/java/com/loudent/library/dao/catalog/CatalogSearchExpressionBuilder.java:34 | Joining one more part adds the separator and the part. |
| `Records.Lookup` | src/main/java/com/loudent/library/service/account/AccountService.java:63-65 | A keyed read fails exactly when the store fails for that key. Otherwise it yields the item stored under the key, or null when the key is absent. |
| `Activities.ExtractIsbn` | src/main/java/com/loudent/library/service/activity/ActivityService.java:171-174 | The whole id is returned exactly when it has no `.` or starts with one. Otherwise the result is a non-empty proper prefix that is followed by `.` and contains no `.`: the text before the first `.`. |
| `Activities.IndexOf` | src/main/java/com/loudent/library/service/activity/ActivityService.java:172 | `String.indexOf` returns -1 exactly when the character is absent. Otherwise it returns the position of its first occurrence. |
| `Activities.ExtractIsbnOfCopyId` | src/main/java/com/loudent/library/service/activity/ActivityService.java:171-174 | For an ISBN without `.`, the id `isbn.copy` yields that ISBN. |
| `Activities.ExtractIsbnKeepsDashIds` | src/main/java/com/loudent/library/service/activity/ActivityService.java:171-174 | An id written with `-` is not split. |
| `Activities.FetchCatalogSafely` | src/main/java/com/loudent/library/service/activity/ActivityService.java:186-195 | The copy's catalog entry is returned exactly when its ISBN's read neither fails nor finds nothing; a failed read gives none. |
| `Activities.Checkout` | src/main/java/com/loudent/library/service/activity/ActivityService.java:93-133 | One copy's checkout: the result carries the bookId, and no other key of the table changes. |
| `Activities.Checkin` | src/main/java/com/loudent/library/service/activity/ActivityService.java:136-168 | One copy's checkin: the result carries the bookId, and no other key of the table changes. |
| `Activities.StepsAreLocal` | src/main/java/com/loudent/library/service/activity/ActivityService.java:93-168 | A copy's result depends on the table only through that copy's own record. |
| `Activities.StepsWriteOwnKey` | src/main/java/com/loudent/library/service/activity/ActivityService.java:93-168 | What checkout and checkin leave at their own bookId depends on the table only through the record there. |
| `Activities.CheckoutStepIsLocal` | src/main/java/com/loudent/library/service/activity/ActivityService.java:93-133 | The checkout of one copy writes only that copy's key, and its result and what it leaves at that key depend only on that key's record. |
| `Activities.CheckinStepIsLocal` | src/main/java/com/loudent/library/service/activity/ActivityService.java:136-168 | The same for the checkin of one copy. |
| `Activities.RunBatch` | src/main/java/com/loudent/library/util/ConcurrentUtils.java:17-26 | Running a per-copy step that touches only its own key, once per bookId, gives one result per bookId in input order and leaves keys outside the batch unchanged. |
| `Activities.CheckoutAll` | src/main/java/com/loudent/library/service/activity/ActivityService.java:74-75 | A checkout batch gives exactly one result per input bookId, in input order, and keys outside the batch keep their records. |
| `Activities.CheckinAll` | src/main/java/com/loudent/library/service/activity/ActivityService.java:78-80 | The same for a checkin batch. |
| `Activities.DistinctBatchIsElementwise` | src/main/java/com/loudent/library/service/activity/ActivityService.java:74-80 | With distinct bookIds, each result equals the one that copy gets alone on the table as it was before the batch. |
| `Activities.DistinctRunIsElementwise` | src/main/java/com/loudent/library/util/ConcurrentUtils.java:17-26 | For any step that touches and reads only its own key, distinct bookIds each get the result they would get alone on the original table. |
| `Activities.DistinctRunTableIsElementwise` | src/main/java/com/loudent/library/util/ConcurrentUtils.java:17-26 | For any step that touches and writes only its own key, the table a batch of distinct bookIds leaves holds, at each bookId, what that step alone leaves there on the original table. |
| `Activities.DistinctBatchTableIsElementwise` | src/main/java/com/loudent/library/service/activity/ActivityService.java:74-80 | With distinct bookIds, the table a checkout or checkin batch leaves holds, at each bookId, what that copy's operation alone leaves there; with `CheckoutAll`'s frame, the final table does not depend on the order the copies run in. |
| `Activities.CheckoutArgumentError` | src/main/java/com/loudent/library/service/activity/ActivityService.java:66-73 | The arguments are rejected exactly when the account or the list is null, the list is empty, or the account does not exist. The rejection is an IllegalArgumentException without a cause. |
| `Activities.EmptyCheckoutIsRejected` | src/main/java/com/loudent/library/service/activity/ActivityService.java:67-69 | A null account number, or a null or empty list, is rejected with "Account number and book IDs must be provided". |
| `Activities.UnknownAccountIsRejected` | src/main/java/com/loudent/library/service/activity/ActivityService.java:70-72 | With a non-empty list, an account that does not exist or cannot be read is rejected with "Account not found: " and the account number. |
| `Activities.FlattenConcat` | src/main/java/com/loudent/library/service/activity/ActivityService.java:177-183 | Collecting page lists respects their concatenation. |
| `Activities.FlattenMembers` | src/main/java/com/loudent/library/service/activity/ActivityService.java:177-183 | An item is collected exactly when it is on some page. |
| `Activities.ActivityService.constructor` | src/main/java/com/loudent/library/service/activity/ActivityService.java:34-45 | The service starts from the given tables, with every record stored under its own bookId. |
| `Activities.ActivityService.GetByBookId` | src/main/java/com/loudent/library/service/activity/ActivityService.java:47-49 | It returns the record stored under the bookId or null, or fails as the store's read fails. |
| `Activities.ActivityService.IsBookCheckedOut` | src/main/java/com/loudent/library/service/activity/ActivityService.java:62-64 | True exactly when a record is stored under the bookId; a failed read propagates. |
| `Activities.ActivityService.PutItem` | src/main/java/com/loudent/library/service/activity/ActivityService.java:118 | On success the record is stored under its bookId; on failure the table is unchanged. |
| `Activities.ActivityService.DeleteItem` | src/main/java/com/loudent/library/service/activity/ActivityService.java:85 | On success the record is removed; on failure the table is unchanged. |
| `Activities.ActivityService.DeleteByBookId` | src/main/java/com/loudent/library/service/activity/ActivityService.java:82-90 | It removes the record only if one is present; an absent key is a no-op. It fails exactly when a store call fails, and then the table is unchanged. |
| `Activities.ActivityService.ProcessCheckout` | src/main/java/com/loudent/library/service/activity/ActivityService.java:93-133 | The result and the new table are exactly `Checkout` of the old table. Records stay keyed by their bookId. |
| `Activities.ActivityService.ProcessCheckin` | src/main/java/com/loudent/library/service/activity/ActivityService.java:136-168 | The result and the new table are exactly `Checkin` of the old table. |
| `Activities.ActivityService.CheckoutBooks` | src/main/java/com/loudent/library/service/activity/ActivityService.java:66-76 | Rejected arguments fail before any copy is processed, and the table is unchanged. Otherwise the results and the table are those of `CheckoutAll`. |
| `Activities.ActivityService.CheckinBooks` | src/main/java/com/loudent/library/service/activity/ActivityService.java:78-80 | A null list throws. Otherwise the results and the table are those of `CheckinAll`. |
| `Activities.ActivityService.CollectItems` | src/main/java/com/loudent/library/service/activity/ActivityService.java:177-183 | The loop returns the items of every page, page after page. |
| `Activities.UnregisteredWritesNothing` | src/main/java/com/loudent/library/service/activity/ActivityService.java:95-100 | A copy whose ISBN has no catalog entry, or whose catalog read fails, gets UNREGISTERED with only the bookId set, and nothing is written. |
| `Activities.CheckoutRecordsLoan` | src/main/java/com/loudent/library/service/activity/ActivityService.java:102-128 | A successful checkout leaves `table[bookId] = (bookId, isbn, account, today, today + 21)` and changes nothing else. The note is REPLACED_EXISTING exactly when a record existed before, and OK exactly when none did. |
| `Activities.FailedPutKeepsDelete` | src/main/java/com/loudent/library/service/activity/ActivityService.java:106-118 | If the put fails after the old record was deleted, the delete is not rolled back. The note is "Error: " and the message, which reads as none of the notes. |
| `Activities.FailedReadChangesNothing` | src/main/java/com/loudent/library/service/activity/ActivityService.java:129-132 | A failed read gives an error note and leaves the table unchanged, for checkout and for checkin. |
| `Activities.FailedDeleteKeepsRecord` | src/main/java/com/loudent/library/service/activity/ActivityService.java:106-109 | If deleting the existing record fails, checkout and checkin both end with "Error: " and the failure's message, and the record stays. |
| `Activities.FailedPutOfNewLoan` | src/main/java/com/loudent/library/service/activity/ActivityService.java:111-118 | If the put fails for a copy that had no record, checkout ends with "Error: " and the failure's message, and nothing is written. |
| `Activities.CheckoutOutcomes` | src/main/java/com/loudent/library/service/activity/ActivityService.java:93-133 | A checkout's result is UNREGISTERED, or the error note of a failing get, delete or put, or an OK or REPLACED_EXISTING loan under the catalog's title. |
| `Activities.CheckinOutcomes` | src/main/java/com/loudent/library/service/activity/ActivityService.java:136-168 | A checkin's result is UNREGISTERED, ALREADY_CHECKED_IN, the error note of a failing get or delete, or OK under the catalog's title. |
| `Activities.CheckoutNotesCarryTitle` | src/main/java/com/loudent/library/service/activity/ActivityService.java:95-128 | A checkout noted OK or REPLACED_EXISTING is of a registered copy and carries its catalog title. |
| `Activities.CheckinNotesCarryTitle` | src/main/java/com/loudent/library/service/activity/ActivityService.java:139-157 | A checkin noted OK is of a registered copy and carries its catalog title. |
| `Activities.CheckinReturnsDates` | src/main/java/com/loudent/library/service/activity/ActivityService.java:147-157 | Checkin of a checked-out copy removes its record and returns the record's original dates with OK. |
| `Activities.CheckinOfReturnedCopy` | src/main/java/com/loudent/library/service/activity/ActivityService.java:158-161 | Checkin of a copy that is not checked out gives ALREADY_CHECKED_IN and leaves the table unchanged. |
| `Activities.SecondCheckinIsAlreadyCheckedIn` | src/main/java/com/loudent/library/service/activity/ActivityService.java:147-161 | Checking a copy in a second time gives ALREADY_CHECKED_IN. |
| `Activities.CheckoutThenCheckin` | src/main/java/com/loudent/library/service/activity/ActivityService.java:93-168 | Checkout followed by checkin returns the loan's dates and leaves the table as it was, minus any earlier record of that copy. |
| `Activities.StepsKeepTableWellKeyed` | src/main/java/com/loudent/library/service/activity/ActivityService.java:110-118 | Checkout and checkin keep every record stored under its own bookId. |
| `Catalogs.Mapped` | src/main/java/com/loudent/library/service/catalog/CatalogService.java:145-156 | The ISBN, title and author names are copied. totalCopies is the number of bookIds, or 0 without a list, and availableCopies is not set. |
| `Catalogs.MapToCatalogResponse` | src/main/java/com/loudent/library/service/catalog/CatalogService.java:145-156 | null for null. Otherwise a fresh response holding the mapped fields. |
| `Catalogs.CatalogResponse.constructor` | src/main/java/com/loudent/library/service/catalog/CatalogService.java:150-155 | The new response holds the given fields, with availableCopies not set. |
| `Catalogs.CatalogResponse.SetAvailableCopies` | src/main/java/com/loudent/library/service/catalog/CatalogService.java:171 | The setter changes availableCopies and nothing else. |
| `Catalogs.Available` | src/main/java/com/loudent/library/service/catalog/CatalogService.java:164 | The value is `max(0, total - checkedOut)`: never negative, and never above a non-negative total. |
| `Catalogs.CheckedOut` | src/main/java/com/loudent/library/service/catalog/CatalogService.java:162-163 | The number of activities the ISBN index lists. A null list counts as 0, and a failing query propagates. |
| `Catalogs.Enriched` | src/main/java/com/loudent/library/service/catalog/CatalogService.java:159-172 | With a null ISBN the fields are unchanged. Otherwise only availableCopies changes, to `Available(total, checked out)`, and the call fails exactly when the index query fails. |
| `Catalogs.EnrichWithAvailability` | src/main/java/com/loudent/library/service/catalog/CatalogService.java:159-172 | A null response or ISBN returns the response untouched. Otherwise it sets availability on that same object and returns it; on failure the object is unchanged. |
| `Catalogs.ByIsbn` | src/main/java/com/loudent/library/service/catalog/CatalogService.java:54-65 | It succeeds exactly when the read succeeds, finds the entry, and the availability query succeeds. Every failure is a RuntimeException "Failed to retrieve book with ISBN " + isbn. |
| `Catalogs.GetByIsbn` | src/main/java/com/loudent/library/service/catalog/CatalogService.java:54-65 | It returns a fresh response with exactly the `ByIsbn` fields, or the `ByIsbn` failure. |
| `Catalogs.FoundIsbnResponse` | src/main/java/com/loudent/library/service/catalog/CatalogService.java:54-65 | A found ISBN gives the entry's mapped fields, with availableCopies = max(0, totalCopies - the number of activities the ISBN index lists). |
| `Catalogs.MissingIsbnIsNotFound` | src/main/java/com/loudent/library/service/catalog/CatalogService.java:57-59 | For a missing ISBN, the failure's root is NotFound("Book not found for ISBN: " + isbn). |
| `Catalogs.WithTitleMembers` | src/main/java/com/loudent/library/service/catalog/CatalogService.java:101-103 | The items kept are exactly the scanned items with that title. |
| `Catalogs.FirstWithTitleIsEarliest` | src/main/java/com/loudent/library/service/catalog/CatalogService.java:105 | The first match is the earliest scanned item with the title. |
| `Catalogs.GetBookByTitleAsync` | src/main/java/com/loudent/library/service/catalog/CatalogService.java:88-106 | The loop collects the matches and returns the first, or null when there is none. A failing scan propagates. |
| `Catalogs.ByTitle` | src/main/java/com/loudent/library/service/catalog/CatalogService.java:75-86 | Every failure is a RuntimeException "Failed to retrieve book with title " + title. |
| `Catalogs.GetBookByTitle` | src/main/java/com/loudent/library/service/catalog/CatalogService.java:75-86 | It returns a fresh response with exactly the `ByTitle` fields, or the `ByTitle` failure. |
| `Catalogs.FoundTitleResponse` | src/main/java/com/loudent/library/service/catalog/CatalogService.java:75-86 | The title lookup succeeds exactly when the scan succeeds, some item has the title, and the first such item has no ISBN or a readable index entry. It then gives that item's mapped fields, with availability set when the item has an ISBN. |
| `Catalogs.MissingTitleIsNotFound` | src/main/java/com/loudent/library/service/catalog/CatalogService.java:78-80 | With no match, the failure's root is NotFound("Book not found for title: " + title). |
| `Catalogs.NothingWithTitle` | src/main/java/com/loudent/library/service/catalog/CatalogService.java:101-105 | When no scanned item has the title, the scan collects nothing. |
| `Catalogs.FilterMembers` | src/main/java/com/loudent/library/service/catalog/CatalogService.java:128-137 | The items kept are exactly the scanned items that match every author field the request sets. |
| `Catalogs.SearchCatalogAsync` | src/main/java/com/loudent/library/service/catalog/CatalogService.java:128-137 | It filters with the built expression only when there is one, and either way yields exactly the matching items in scan order. |
| `Catalogs.SearchResults` | src/main/java/com/loudent/library/service/catalog/CatalogService.java:111-126 | Every failure is rewrapped as "Failed to perform catalog search". |
| `Catalogs.Search` | src/main/java/com/loudent/library/service/catalog/CatalogService.java:111-126 | The loop gives one fresh response per matching item, in order, with the fields of `SearchResults`, or the same failure. |
| `Catalogs.MapAndEnrich` | src/main/java/com/loudent/library/service/catalog/CatalogService.java:117-120 | One item's mapper: a fresh response with the item's mapped fields and its availability, or the availability query's failure. |
| `Catalogs.SearchResponsesFollowItems` | src/main/java/com/loudent/library/service/catalog/CatalogService.java:115-121 | The i-th response is the i-th matching item, mapped. Its availableCopies is max(0, totalCopies - checked-out count) when the item has an ISBN, and stays unset when it has none. |
| `Accounts.AccountExists` | src/main/java/com/loudent/library/service/account/AccountService.java:52-60 | True exactly when the lookup yields a record. An absent record or a failing lookup gives false. |
| `Accounts.MapToUserResponse` | src/main/java/com/loudent/library/service/account/AccountService.java:76-83 | null for null. Otherwise the account number, names and memberSince are copied. |
| `Accounts.BorrowedBooks` | src/main/java/com/loudent/library/service/account/AccountService.java:88-90 | There is one borrowed book per activity, in order, with bookId, title and check-out date copied and the due date as due-by date. |
| `Accounts.EnrichWithBorrowedBooks` | src/main/java/com/loudent/library/service/account/AccountService.java:86-92 | Only the book list changes: the account's activities, or an empty non-null list for a null one. A failing query propagates. |
| `Accounts.GetByAccountNumber` | src/main/java/com/loudent/library/service/account/AccountService.java:38-49 | It succeeds exactly when the account exists and its activities can be read. Every failure is a RuntimeException "Failed to retrieve account #" + number. |
| `Accounts.MissingAccountIsNotFound` | src/main/java/com/loudent/library/service/account/AccountService.java:41-43 | For a missing account, the failure's root is NotFound("Account not found for account number: " + number). |
| `Accounts.FoundAccountResponse` | src/main/java/com/loudent/library/service/account/AccountService.java:38-49 | A found account's response carries its fields and its borrowed books in index order. |
| `SearchExpressions.From` | src/main/java/com/loudent/library/dao/catalog/CatalogSearchExpressionBuilder.java:12-37 | The result is null exactly when neither author field is set. The expression for each case is the one written in the source, with one value per condition, and the expression is the conditions joined by " AND ". The store keeps exactly the entries that match the request. |
| `MetricTags.SplitOnJoin` | src/main/java/com/loudent/library/aspect/AbstractMethodTimer.java:46 | Joining the pieces of a split with ':' gives the entry back. |
| `MetricTags.SplitOnPieces` | src/main/java/com/loudent/library/aspect/AbstractMethodTimer.java:46 | No piece of a split holds the separator. |
| `MetricTags.StripTrailingEmpty` | src/main/java/com/loudent/library/aspect/AbstractMethodTimer.java:46 | Java's split drops exactly the trailing empty pieces. |
| `MetricTags.ConvertTagExactly` | src/main/java/com/loudent/library/aspect/AbstractMethodTimer.java:45-48 | An entry gives the tag (k, v) exactly when it is k, ':', v and possibly more ':'s, with no ':' in k or v and v not empty. |
| `MetricTags.ConvertTagPieces` | src/main/java/com/loudent/library/aspect/AbstractMethodTimer.java:45-48 | An entry gives the tag (k, v) exactly when it holds ':' and its split, without trailing empty pieces, is [k, v]. |
| `MetricTags.ConvertTagSound` | src/main/java/com/loudent/library/aspect/AbstractMethodTimer.java:45-48 | Every tag comes from an entry of that form. |
| `MetricTags.ConvertTagComplete` | src/main/java/com/loudent/library/aspect/AbstractMethodTimer.java:45-48 | Every entry of that form converts. |
| `MetricTags.Converted` | src/main/java/com/loudent/library/aspect/AbstractMethodTimer.java:36-41 | There are never more tags than entries. Every tag comes from some entry, and every convertible entry gives its tag. |
| `MetricTags.GetMetricTags` | src/main/java/com/loudent/library/aspect/AbstractMethodTimer.java:32-43 | A null array gives no tags; otherwise the converted entries. |
| `MetricTags.MapExceptionToStatus` | src/main/java/com/loudent/library/aspect/AbstractMethodTimer.java:50-52 | 500 for every exception. |
| `MetricTags.ConvertsKeyValue` | src/main/java/com/loudent/library/aspect/AbstractMethodTimer.java:45-48 | "env:prod" gives the tag (env, prod). |
| `MetricTags.DropsWithoutSeparator` | src/main/java/com/loudent/library/aspect/AbstractMethodTimer.java:45-48 | An entry without ':' is dropped. |
| `MetricTags.DropsEmptyValue` | src/main/java/com/loudent/library/aspect/AbstractMethodTimer.java:46-47 | "a:" splits into one piece and is dropped. |
| `MetricTags.DropsThreePieces` | src/main/java/com/loudent/library/aspect/AbstractMethodTimer.java:46-47 | "x:y:z" splits into three pieces and is dropped. |
| `AsyncCompletion.OutcomeOf` | src/main/java/com/loudent/library/api/catalog/CatalogLibraryController.java:36-37 | The deadline wins when it passes first. Otherwise the outcome is the service's value or its exception, and never a null value. |
| `AsyncCompletion.Received` | src/main/java/com/loudent/library/api/catalog/CatalogLibraryController.java:36-40 | The callback receives nothing on completion. A timeout gives a bare TimeoutException. A failure gives a CompletionException with the same root as the service's exception. |
| `AsyncCompletion.HandleAsync` | src/main/java/com/loudent/library/api/catalog/CatalogLibraryController.java:39-50 | The callback completes normally exactly when the value arrived and is non-null (or null is not checked), and then with that value unchanged. Otherwise it throws a CompletionException with a cause. |
| `AsyncCompletion.Reply` | src/main/java/com/loudent/library/api/catalog/CatalogLibraryController.java:35-52 | 200 with the value exactly when the callback completes normally. Every reply's status is 200, 400, 404, 408 or 500. |
| `AsyncCompletion.DeliveredIsRethrownCause` | src/main/java/com/loudent/library/api/catalog/CatalogLibraryController.java:43 | The exception the advice receives is the cause the callback rethrew: same node, same root. |
| `AsyncCompletion.FailureReply` | src/main/java/com/loudent/library/api/catalog/CatalogLibraryController.java:40-44 | A failure whose chain ends is answered as if its root alone had been thrown. |
| `AsyncCompletion.RootDecidesReply` | src/main/java/com/loudent/library/api/catalog/CatalogLibraryController.java:40-44 | Two failures with the same root get the same reply. |
| `AsyncCompletion.ServiceWrapperIsTransparent` | src/main/java/com/loudent/library/api/catalog/CatalogLibraryController.java:40-44 | The service's RuntimeException around a joined read's CompletionException does not change the reply. |
| `AsyncCompletion.TimeoutReply` | src/main/java/com/loudent/library/api/catalog/CatalogLibraryController.java:37 | Exceeding the deadline gives a TimeoutException root and the reply 408 "The request timed out. Please try again later.". |
| `AsyncCompletion.NullValueReply` | src/main/java/com/loudent/library/api/catalog/CatalogLibraryController.java:45-48 | A null value, where the controller checks for it, gives 404 with the controller's message. |
| `ActivityApi.CheckoutBooks` | src/main/java/com/loudent/library/api/activity/ActivityLibraryController.java:31-51 | The request's account number and bookIds go to the service unchanged. The reply is the chain's reply to the service's outcome. The table changes as the batch changes it, even when the deadline has passed. |
| `ActivityApi.CheckinBooks` | src/main/java/com/loudent/library/api/activity/ActivityLibraryController.java:57-74 | The same for checkin. |
| `ActivityApi.ArgumentErrorIsBadRequest` | src/main/java/com/loudent/library/api/activity/ActivityLibraryController.java:38-46 | A rejected checkout is answered with 400 and "Argument error: " followed by the reason. |
| `ActivityApi.EmptyCheckoutReply` | src/main/java/com/loudent/library/api/activity/ActivityLibraryController.java:38-46 | An empty list of copies is answered with 400 "Argument error: Account number and book IDs must be provided". |
| `ActivityApi.NullCheckinReply` | src/main/java/com/loudent/library/api/activity/ActivityLibraryController.java:63-69 | A checkin without a list is answered with 500 "An unexpected error occurred.". |
| `CatalogApi.GetBookByIsbn` | src/main/java/com/loudent/library/api/catalog/CatalogLibraryController.java:35-52 | A timeout gives 408. Otherwise the reply is 200 exactly when the service succeeds, and then its body is the service's response unchanged. |
| `CatalogApi.GetBookByTitle` | src/main/java/com/loudent/library/api/catalog/CatalogLibraryController.java:58-78 | The same for the title lookup. |
| `CatalogApi.SearchCatalog` | src/main/java/com/loudent/library/api/catalog/CatalogLibraryController.java:84-99 | The same for the search. An empty result is 200, and there is no 404 of its own. |
| `CatalogApi.MissingIsbnReply` | src/main/java/com/loudent/library/api/catalog/CatalogLibraryController.java:40-48 | A missing ISBN is answered with 404 and the service's NotFound message; the controller's own null branch never fires. |
| `CatalogApi.MissingTitleReply` | src/main/java/com/loudent/library/api/catalog/CatalogLibraryController.java:65-74 | A missing title is answered with 404 and the service's message "Book not found for title: ...", not the controller's. |
| `CatalogApi.IsbnReadFailureReply` | src/main/java/com/loudent/library/api/catalog/CatalogLibraryController.java:40-44 | A failing catalog read is answered as the read's own exception would be. For example, a failing read whose exception is a TimeoutException still gets 408. |
| `CatalogApi.ScanFailureReply` | src/main/java/com/loudent/library/api/catalog/CatalogLibraryController.java:65-68 | A failing scan is answered as the scan's own exception would be, for the title lookup and for the search. |
| `AccountApi.GetUserByAccountNumber` | src/main/java/com/loudent/library/api/useraccount/UserAccountLibraryController.java:31-51 | A timeout gives 408. Otherwise the reply is 200 exactly when the account exists and its books can be read, with the service's response unchanged. |
| `AccountApi.MissingAccountReply` | src/main/java/com/loudent/library/api/useraccount/UserAccountLibraryController.java:37-47 | A missing account is answered with 404 and the service's NotFound message. The controller's "User not found" branch never fires. |
| `AccountApi.AccountReadFailureReply` | src/main/java/com/loudent/library/api/useraccount/UserAccountLibraryController.java:37-42 | A failing account read is answered as the read's own exception would be. |

## Left out

- Thread pools and asynchrony are left out: `supplyAsync`, `orTimeout`, `handleAsync` and `allOf().join()` on executors. A batch runs its copies one after another. For distinct bookIds the order does not matter: `DistinctBatchIsElementwise` shows it for the results, and `DistinctBatchTableIsElementwise` for the table the batch leaves. The race between concurrent checkouts of the same copy is not modelled.
- The deadline is modelled as a flag. A timed-out request still changes the activity table, because `orTimeout` does not stop the supplier.
- DynamoDB is replaced by maps and sequences: tables, indexes, scans and their subscription. The two activity indexes are read-only tables given as inputs, so they are not kept in step with the activity table.
- Concurrent.ParallelMap: the model does not capture that the mapper is applied exactly once per element. A sequential map applies it once by construction, but the model does not state this.
- Concurrent.ParallelMap: the documentation of `allOf` does not say which failure it reports when several elements fail. The JDK's implementation reports the first failing element in input order, whatever the timing, and that is what the model states.
- Micrometer is left out: the timers, the registry, and the key-sorting and deduplication of `Tags.of`. `GetMetricTags` returns the tags in entry order.
- Logging (`log.*`) and the thread-local logging context are left out. The one logging call whose argument can throw is modelled; see Findings.
- Spring's choice of `@ExceptionHandler` is modelled as a match on the exception's class (`Classify`). The unwrapping of one CompletionException before the choice is modelled as `Delivered`.
- `LocalDate.now()` is an input day number. "+3 weeks" is modelled as +21 days.
- Activities.ActivityService.CheckinBooks: a null list throws a NullPointerException whose JVM-generated message is not modelled (it is null in the model).
- ErrorAdvice.Classify: it sends every unhandled class to the intended catch-all `HandleUnhandled`, so every reply of the model follows the corrected handler; see Findings. The handler as written (`HandleUnhandledAsWritten`) differs only for a root that is not a NotFoundException and has no message, where it gives no reply. The NullPointerException of a null checkin list is such a root in the model, so `ActivityApi.NullCheckinReply` states the corrected program's 500. On Java 16 and later, which the source needs, the JVM gives that exception a message, and the program as written also answers 500.
- Exceptions.AsCompletion: the message of a CompletionException (its cause's `toString()`) is not modelled.
- The entities' null fields are modelled only where the code reads them. A null bookId, a null element in a bookId list, null dates of an activity, and a null search request or title are not modelled.
- `processCheckout` never sets the title of the activity it stores, so `MapToBorrowedBook` passes on a null title for loans made by the service. This is modelled as written.
- NotFoundException is taken to extend RuntimeException. Its declaration is not part of this model.
- Constraint violations are a sequence in the model. Their iteration order in the source is that of a set.
- The HTTP smoke test is left out.

## Findings

| source | as written | input that shows it | evidently intended | confidence | as-written member | corrected member |
|---|---|---|---|---|---|---|
| src/main/java/com/loudent/library/api/error/GlobalControllerAdvice.java:72-79 | `handleUnhandled` logs `Map.of(..., "message", cause.getMessage(), ...)`. `Map.of` throws a NullPointerException on a null value, so when the unwrapped root has no message the handler itself throws instead of answering. | an IllegalStateException without a message reaching the catch-all handler (`New(IllegalState, None)`) | answer 500 "An unexpected error occurred." for every root that is not a NotFound | not executed | `ErrorAdvice.HandleUnhandledAsWritten` (shown by `ErrorAdvice.UnhandledAsWrittenFailsWithoutMessage`) | `ErrorAdvice.HandleUnhandled` |
