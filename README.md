# Library catalogue: a Dafny model

This project models the core of a browser library-catalogue app (Lumina Library Pro).
The app keeps its books in one SQLite table, `books`, inside an in-memory sql.js database.
It can be connected to a `.db` file that the user picks, and it saves the whole database
into that file after every change.

The model has five modules:

- `Types` (types.dfy) holds the record shapes: `Book`, `Status`, `LibraryStats` and the add
  form's `Draft`. It also holds the pairing rule `Consistent`: an available book has no
  borrower, and a borrowed book has a non-empty borrower name.
- `Seqs` (seqs.dfy) holds `Filter`, the order-preserving `Array.prototype.filter`, and the
  `Subsequence` relation it produces.
- `Database` (database.dfy) models the store module `db/database.ts` as the class `Store`.
  - Its fields are the table (`books`), the AUTOINCREMENT counter (`lastId`), the clock behind
    `CURRENT_TIMESTAMP` (`clock`), `initialized` (`db !== null`) and `connected`
    (`fileHandle !== null`).
  - Two ghost fields track the ids known to be taken (`issued`: the ids added since the
    database was created or opened, and the ids in the file it was opened from) and what the
    connected file holds (`file`, an abstract `DbImage` of rows and counter). An id is never
    reused because every new id is one above the counter `lastId`.
  - The SQL statements are the functions `UpdateWhere`, `Without` and `OrderByDateDesc`, with
    lemmas about them.
- `Views` (views.dfy) holds the two pure derivations of `App.tsx`: the search filter
  `Search` and the statistics record `ComputeStats`.
- `App` (app.dfy) models the `App` component as the class `Library`. It holds the snapshot
  `books` and the dialog and form state, and each event handler is a method.

`Scenario` (scenario.dfy) drives short sessions through the store's contracts alone. Three
books added one second apart list newest first. A deleted id is not handed out again. A
database saved into a new file and reopened from it comes back with the same rows and counter.
A picked file that fails to open is overwritten by the next add, while the component still
shows the session as not connected.

The outcomes of the browser and the engine become inputs to the methods:

- `engineLoaded`: whether sql.js could be loaded.
- `picked`: whether a file picker returned a file.
- `image`: what opening the picked file gave. It is `None` when reading or parsing threw,
  otherwise a well-formed database image.
- `writeOk`: whether writing the file succeeded.
- `elapsed`: the seconds that passed since the previous insert.
- `confirmed`: the answer to `window.confirm`.

`addBook`, `updateBookStatus` and `deleteBook` reject when the save they await fails. The
model's store methods return `ok == false` in exactly that case. `connectToFile` and
`createNewFile` catch every error and resolve `false`; they never reject. A handler that awaits
a rejecting call returns `completed == false` and skips every statement after the await.

Two behaviours of the code matter here:

- `connectToFile` assigns the file handle before it reads and parses the file. A failed read
  therefore leaves the store `connected` to the picked file, with the old table still in place.
- The store does not check that a status and a borrower belong together. `updateBookStatus`
  writes whatever pair it is given. Only the controller's guards keep the table consistent,
  so the model proves the invariant through the handlers.

## Model

| member | source | states |
|---|---|---|
| Types.ConsistentMeansBorrowedIffNamed | types.ts:8-9 | for a consistent book, status is Borrowed exactly when the borrower is a non-empty string, and Available exactly when it is null |
| Seqs.Filter | App.tsx:81-85 | the `filter` result is no longer than the input, and is the input itself when every element satisfies the predicate |
| Seqs.FilterMultiset | App.tsx:81-85 | `filter` keeps each element satisfying the predicate as often as it occurs in the input and drops every other |
| Seqs.FilterSubsequence | App.tsx:81-85 | `filter` keeps the surviving elements in input order |
| Seqs.FilterAppend | App.tsx:89-90 | filtering a concatenation is the concatenation of the filtered parts |
| Seqs.FilterNone | App.tsx:89-90 | filtering by a predicate no element satisfies gives the empty sequence |
| Seqs.FilterMembers | App.tsx:81-85 | an element is in the filtered sequence exactly when it is in the input and satisfies the predicate |
| Seqs.FilterCongruence | App.tsx:81-85 | filtering by two predicates that agree on every element gives the same result |
| Database.Inserted | db/database.ts:102-106 | the inserted row carries the given id, the insertion time, and the title, author, isbn, category and description of the draft; its status is Available with no borrower, so it is consistent |
| Database.FreshIdKeepsKey | db/database.ts:23 | an id one above the AUTOINCREMENT counter is carried by no row; appending a row with it keeps ids unique and at most the new counter |
| Database.UpdateWhere | db/database.ts:113 | the UPDATE keeps the length; the row with the id gets the new status and borrower, every other row and field is unchanged |
| Database.UpdateAbsentIsNoOp | db/database.ts:113 | an UPDATE for an id no row carries leaves the table unchanged |
| Database.UpdateKeepsInvariants | db/database.ts:113 | an UPDATE keeps ids unique and among those issued; with a consistent status and borrower pair it keeps every row consistent |
| Database.BorrowThenReturn | db/database.ts:111-115 | on a consistent table where the id's rows are Available, checking the book out to a name and returning it gives back the table |
| Database.Without | db/database.ts:119 | the DELETE result is an order-preserving subsequence of the table in which no row has the id |
| Database.WithoutExact | db/database.ts:119 | the DELETE removes every row with the id and keeps each other row as often as before |
| Database.WithoutAbsentIsNoOp | db/database.ts:119 | a DELETE for an absent id leaves the table unchanged |
| Database.WithoutIdempotent | db/database.ts:119 | deleting an id twice equals deleting it once |
| Database.WithoutKeepsInvariants | db/database.ts:119 | a DELETE keeps ids unique, keeps them among those issued, and keeps every surviving row consistent |
| Database.InsertByDate | db/database.ts:87 | inserting one row into a newest-first list adds one element; if every listed row is at least as recent, the row goes last |
| Database.InsertPermutes | db/database.ts:87 | the insertion adds exactly that row and loses none |
| Database.InsertWithin | db/database.ts:87 | a date range that holds for the inserted row and the list holds for the result |
| Database.InsertKeepsOrder | db/database.ts:87 | inserting into a newest-first list keeps it newest first |
| Database.OrderByDateDesc | db/database.ts:87 | `ORDER BY added_date DESC` gives a permutation of the table sorted by non-increasing date |
| Database.OrderKeepsSince | db/database.ts:87 | sorting keeps a lower bound on the dates |
| Database.ChronologicalListing | db/database.ts:85-98 | on a table stored oldest first with no two rows in the same second, the listing is the table reversed |
| Database.Store.Exported | db/database.ts:79 | the exported image holds exactly the table and the counter, with unique ids that are at most the counter |
| Database.Store.SavedAs | db/database.ts:77-83 | a failed save leaves the file as it was and happens only with a database and a file handle; a save that changes the file writes the exported table |
| Database.Store.constructor | db/database.ts:6-7 | at module load there is no database and no file handle; the table is empty |
| Database.Store.InitDatabase | db/database.ts:9-34 | with the engine loaded, a fresh database with an empty table and counter 0; otherwise nothing changes; the connection and file are untouched |
| Database.Store.SaveDatabase | db/database.ts:77-83 | writes only when initialized and connected; a successful write makes the file the exported table; a failed write rejects and leaves the file unchanged |
| Database.Store.AddBook | db/database.ts:100-109 | appends exactly one row with title, author, isbn, category and description from the draft, status Available, no borrower, the current time, and an id above every id issued so far; the rest of the table is unchanged; consistency is kept; then saves; no-op before initialization |
| Database.Store.UpdateBookStatus | db/database.ts:111-115 | the table becomes the UPDATE by id; ids, counter and clock are unchanged; with a consistent pair the table stays consistent; then saves; no-op before initialization |
| Database.Store.DeleteBook | db/database.ts:117-121 | the table becomes the DELETE by id; the counter is not lowered, so the freed id is never reissued; consistency is kept; then saves; no-op before initialization |
| Database.Store.GetBooks | db/database.ts:85-98 | empty before initialization; otherwise a permutation of the table with the newest rows first |
| Database.Store.ConnectToFile | db/database.ts:36-57 | succeeds exactly when a file was picked and opened; on success the table and counter come from the file; a picked file always sets the handle, even when reading it fails, and the table is then unchanged |
| Database.Store.CreateNewFile | db/database.ts:59-75 | a picked destination sets the handle and then saves; on success with a database, the file holds the current table; the table never changes |
| Views.Lower | App.tsx:82-84 | `toLowerCase` keeps the length, turns each upper-case ASCII letter into its lower-case letter (32 code points above) and keeps every other character |
| Views.Contains | App.tsx:82-84 | `includes` holds when the term is a prefix of the text (so always for the empty term), and only for a term no longer than the text |
| Views.Matches | App.tsx:82-84 | the empty term matches every book |
| Views.LowerIdempotent | App.tsx:82-84 | lower-casing twice is lower-casing once |
| Views.ContainsAtOffset | App.tsx:82-84 | `includes` holds exactly when the term is a prefix of some suffix of the text |
| Views.Search | App.tsx:81-85 | `filteredBooks` keeps exactly the books whose lower-cased title, author or category contains the lower-cased term, each as often as in the snapshot, in snapshot order |
| Views.SearchEmptyKeepsAll | App.tsx:81-85 | the empty search term keeps every book |
| Views.SearchIgnoresCase | App.tsx:81-85 | two terms that lower-case alike find the same books |
| Views.SearchLowered | App.tsx:81-85 | searching for the lower-cased term finds the same books as searching for the term |
| Views.FitzgeraldFound | App.tsx:82-84 | the term "FITZGERALD" matches any book whose author is "F. Scott Fitzgerald", by case-insensitive substring |
| Views.SearchExample | App.tsx:81-85 | the term "FITZGERALD" finds a book by "F. Scott Fitzgerald" and not a book by "Herbert" |
| Views.WithStatus | App.tsx:89-90 | `books.filter(b => b.status === st)` keeps exactly the books with that status, each as often as in the snapshot, so its length counts them |
| Views.StatusSplit | App.tsx:89-90 | the Available and Borrowed counts add up to the number of books |
| Views.WithStatusAppend | App.tsx:89-90 | the books with a status in a concatenation are those of each part, concatenated |
| Views.WithStatusAll | App.tsx:89-90 | in a collection all of one status, every book counts for that status |
| Views.WithStatusNone | App.tsx:89-90 | in a collection with no book of a status, none counts for it |
| Views.Categories | App.tsx:91 | the set holds every book's category and nothing else, and is empty exactly when there are no books |
| Views.CategoriesCons | App.tsx:91 | the category set of a non-empty list is the first category joined to the set of the rest |
| Views.CategoriesBound | App.tsx:91 | there are never more distinct categories than books |
| Views.CategoriesOfTwo | App.tsx:91 | two non-empty collections, each all in one category, have exactly those two categories together |
| Views.ComputeStats | App.tsx:87-92 | `totalBooks` is the snapshot length; `availableBooks` and `borrowedBooks` are the numbers of books with each status and add up to the total; `categoriesCount` is the number of distinct categories, at most the total and 0 exactly for the empty snapshot; no borrowed count without a borrowed book |
| Views.SingleCategory | App.tsx:91 | books that all share one category count as one category |
| Views.ShelfCounts | App.tsx:89-90 | available books followed by borrowed books count as the two sizes |
| Views.ShelvesStats | App.tsx:87-92 | a shelf of available books in one category beside borrowed books in another gives the total, the two sizes and two categories (five books, three available, two borrowed: 5, 3, 2, 2) |
| App.Library.constructor | App.tsx:10-17 | the component's initial state: empty snapshot, not ready, not connected, no dialogs, blank form, empty name and term |
| App.Library.LoadData | App.tsx:19-22 | afterwards the snapshot equals the store's listing |
| App.Library.Mount | App.tsx:24-29 | with the engine loaded, the database is ready with an empty table and counter 0 and the snapshot is the empty listing; otherwise the store, the ready flag and the snapshot are unchanged; the file handle, the file, the clock and the other component fields never change |
| App.Library.HandleConnect | App.tsx:31-37 | on a successful connect, marks the session connected and loads the file's table and counter into the store and the snapshot; with no file picked the store is unchanged; a picked file that fails to open still sets the store's handle, forgets the file's contents and keeps the table, counter and issued ids; otherwise the snapshot and connected flag stay; the clock and the other component fields never change |
| App.Library.HandleCreate | App.tsx:39-45 | the table, counter, issued ids, clock and initialized flag never change; with no destination picked the store is unchanged; a picked destination sets the store's handle; with a database, a successful write makes the file hold the table and marks the session connected and reloads, while a failed write leaves the connected flag and the snapshot as they were; with no database the session is marked connected; the other component fields never change |
| App.Library.HandleAddBook | App.tsx:47-54 | completes exactly when the title or author is empty, no save was attempted, or the write succeeded; with an empty title or author the store, snapshot and form are unchanged; otherwise, with a database, the clock advances by the elapsed time and one row from the form is appended with a new id above every issued id; on success clears and closes the form, resyncs the snapshot and leaves the file current; before initialization the store is unchanged; consistency is kept; the other component fields never change |
| App.Library.HandleDeleteBook | App.tsx:56-61 | completes exactly when not confirmed, no save was attempted, or the write succeeded; without confirmation the store and snapshot are unchanged; otherwise the DELETE by id; the counter, issued ids, clock and flags never change; on success the snapshot is resynced and the file current; consistency is kept; the other component fields never change |
| App.Library.HandleToggleStatus | App.tsx:63-70 | an Available book only opens the borrow dialog for its id and leaves the store and snapshot unchanged; any other status sets the book Available with no borrower and, on success, resyncs with the file current; completes exactly when the book was Available, no save was attempted, or the write succeeded; the counter, issued ids, clock and flags never change; consistency is kept; the other component fields never change |
| App.Library.HandleConfirmBorrow | App.tsx:72-79 | without an open dialog or a name the store, snapshot, dialog and name are unchanged; otherwise the book becomes Borrowed by that name and, on success, the dialog closes, the name clears, the snapshot resyncs and the file is current; completes exactly when the guard failed, no save was attempted, or the write succeeded; the counter, issued ids, clock and flags never change; consistency is kept; the other component fields never change |
| App.Library.CancelBorrow | App.tsx:282 | the Cancel button closes the borrow dialog |
| App.Library.TypeBorrowerName | App.tsx:276 | the name input sets the borrower name |
| App.Library.EditDraft | App.tsx:204-242 | the form inputs set the draft |
| App.Library.SetAddModal | App.tsx:152-249 | the open and cancel buttons show or hide the add form |
| App.Library.TypeSearchTerm | App.tsx:121 | the search box sets the term |
| Scenario.ListThree | db/database.ts:85-109 | three books added one second apart list as the third, the second, the first, with ids 3, 2, 1 |
| Scenario.ListingOfThree | db/database.ts:87 | three rows stored oldest first, in distinct seconds, list newest first |
| Scenario.NextIdAfterDelete | db/database.ts:100-121 | after adding two books and deleting the second, the next book gets id 3, not the freed id 2 |
| Scenario.SaveAndReopen | db/database.ts:36-83 | any database saved into a new file and opened again from it has the same rows and counter |
| Scenario.FailedConnectThenAdd | App.tsx:31-54 | after a picked file fails to open, adding a book completes and writes the table, with the new row, into that file, while the component still shows the session as not connected |

## Left out

- The sql.js engine is not modelled: loading it from a CDN, `db.export()`, and parsing a
  database image. An opened file is an abstract `DbImage`, and an image SQLite could not have
  written (duplicate ids, a counter below an id) is excluded by the `Loaded` type.
- The File System Access API (pickers, `getFile`, `createWritable`, `write`, `close`) is not
  modelled. Its outcomes are the inputs `picked`, `image` and `writeOk`. What a newly created
  file holds before its first successful write is unknown (`file == None`).
- `isFileSystemSupported` is not modelled: it only decides whether the connect buttons render.
- The file's bytes, the SQLite format and `console.error` logging are not modelled.
- Database.Store.GetBooks: the column-by-column assembly of each row into a record is not
  modelled. It is the identity on rows, because the column names are the record's fields.
- Database.ChronologicalListing: it requires rows stored in distinct seconds, because SQLite
  lists rows with equal `added_date` in no promised order.
- Database.OrderByDateDesc: SQLite promises no order among rows with equal `added_date`.
  The model fixes one order (the later-stored row first), and the store's contract promises
  only the sort and the permutation.
- `added_date` is a whole number of seconds, not a formatted timestamp.
- Database.Store.AddBook: the `NOT NULL` constraint on title and author is not modelled. The
  only caller passes a draft whose fields are strings (never NULL), and its guard already
  rejects empty titles and authors.
- A NULL category in a file written by another program is not modelled. `Book.category` is
  always a string, so `toLowerCase` on a NULL category, which throws in the source, cannot occur.
- Views.Search: lower-casing covers ASCII letters only; Unicode case mapping is not modelled.
- Overlapping asynchronous handlers are not modelled. Each handler runs to completion before
  the next one starts. React's batching of state updates is reduced to plain field writes.
- `isDbReady` is modelled but does not guard the handlers, because the source does not use it
  as a guard. It only decides whether the spinner renders.
- `services/geminiService.ts` (a call to a hosted model), `components/BookList.tsx` and
  `components/StatsCards.tsx` are not modelled: they are a network call and rendering.
  BookList passes each book's own status to the toggle handler, which the model takes as the
  handler's `currentStatus` argument.
