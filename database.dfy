/** The persistence store (db/database.ts): one SQLite table `books` held in
    memory, optionally backed by a file the user picked. The SQL engine and
    the file API are reduced to their effect on the table and on an abstract
    image of the file. */
module Database {
  import opened Types
  import opened Seqs

  /** What `db.export()` writes and `new SQL.Database(bytes)` reads back: the
      rows of `books` and the AUTOINCREMENT counter SQLite keeps for it in
      `sqlite_sequence` (the largest id ever handed out). */
  datatype DbImage = DbImage(rows: seq<Book>, sequence: nat)

  /** `id INTEGER PRIMARY KEY`: no two rows share an id. */
  predicate UniqueIds(rows: seq<Book>) {
    forall i, j :: 0 <= i < j < |rows| ==> rows[i].id != rows[j].id
  }

  predicate IdsAtMost(rows: seq<Book>, n: nat) {
    forall i :: 0 <= i < |rows| ==> rows[i].id <= n
  }

  /** SQLite keeps the primary key unique and the AUTOINCREMENT counter at
      least every id in the table. */
  predicate WellFormed(img: DbImage) {
    UniqueIds(img.rows) && IdsAtMost(img.rows, img.sequence)
  }

  /** A database image the engine was able to open. */
  type Loaded = img: DbImage | WellFormed(img) witness DbImage([], 0)

  function RowIds(rows: seq<Book>): set<nat> {
    set i | 0 <= i < |rows| :: rows[i].id
  }

  /** No row carries `id`. */
  predicate Absent(rows: seq<Book>, id: nat) {
    forall i :: 0 <= i < |rows| ==> rows[i].id != id
  }

  /** Every row's id is one of `ids`. */
  predicate IdsIn(rows: seq<Book>, ids: set<nat>) {
    forall i :: 0 <= i < |rows| ==> rows[i].id in ids
  }

  /** The row `INSERT INTO books (title, author, isbn, category, description,
      status) VALUES (…, 'Available')` creates: the omitted `borrower` column
      is NULL and `added_date` takes its CURRENT_TIMESTAMP default. */
  function Inserted(id: nat, d: Draft, now: nat): (b: Book)
    ensures Consistent(b)
    ensures b.id == id && b.addedDate == now
    ensures b.status == Available && b.borrower == None
    ensures b.title == d.title && b.author == d.author && b.isbn == d.isbn
    ensures b.category == d.category && b.description == d.description
  {
    Book(id, d.title, d.author, d.isbn, d.category, Available, None, d.description, now)
  }

  /** An id one above the AUTOINCREMENT counter is new: appending a row that
      carries it keeps the ids unique and below the new counter. */
  lemma FreshIdKeepsKey(rows: seq<Book>, n: nat, b: Book)
    requires UniqueIds(rows) && IdsAtMost(rows, n)
    requires b.id == n + 1
    ensures UniqueIds(rows + [b]) && IdsAtMost(rows + [b], n + 1)
    ensures Absent(rows, b.id)
  {
    var r := rows + [b];
    forall i, j | 0 <= i < j < |r| ensures r[i].id != r[j].id {
      if j == |rows| {
        assert r[i] == rows[i];
        assert rows[i].id <= n;
      } else {
        assert r[i] == rows[i] && r[j] == rows[j];
      }
    }
  }

  /** `UPDATE books SET status = ?, borrower = ? WHERE id = ?`: every row with
      that id gets the new status and borrower; nothing else changes. */
  function UpdateWhere(rows: seq<Book>, id: nat, status: Status, borrower: Option<string>): (r: seq<Book>)
    ensures |r| == |rows|
    ensures forall i :: 0 <= i < |rows| ==>
      r[i] == if rows[i].id == id then rows[i].(status := status, borrower := borrower) else rows[i]
  {
    if rows == [] then []
    else
      var head := if rows[0].id == id then rows[0].(status := status, borrower := borrower) else rows[0];
      [head] + UpdateWhere(rows[1..], id, status, borrower)
  }

  /** An UPDATE for an id that no row carries leaves the table as it was. */
  lemma UpdateAbsentIsNoOp(rows: seq<Book>, id: nat, status: Status, borrower: Option<string>)
    requires Absent(rows, id)
    ensures UpdateWhere(rows, id, status, borrower) == rows
  {
  }

  /** An UPDATE keeps every id (so the key and the counter stay valid), and
      it keeps every row's pairing of status and borrower when the pair it
      writes is itself consistent. */
  lemma UpdateKeepsInvariants(rows: seq<Book>, id: nat, status: Status, borrower: Option<string>, ids: set<nat>)
    ensures var r := UpdateWhere(rows, id, status, borrower);
      && (UniqueIds(rows) ==> UniqueIds(r))
      && (IdsIn(rows, ids) ==> IdsIn(r, ids))
      && (AllConsistent(rows) && PairOk(status, borrower) ==> AllConsistent(r))
  {
    var r := UpdateWhere(rows, id, status, borrower);
    assert forall i :: 0 <= i < |r| ==> r[i].id == rows[i].id;
  }

  /** `DELETE FROM books WHERE id = ?`: the rows whose id differs, in order. */
  function Without(rows: seq<Book>, id: nat): (r: seq<Book>)
    ensures Subsequence(r, rows)
    ensures Absent(r, id)
  {
    if rows == [] then []
    else
      var rest := Without(rows[1..], id);
      if rows[0].id == id then
        SubsequenceSkip(rest, rows);
        rest
      else
        assert ([rows[0]] + rest)[1..] == rest;
        [rows[0]] + rest
  }

  /** The DELETE removes every row with that id and keeps every other row,
      each as often as it was there. */
  lemma {:induction false} WithoutExact(rows: seq<Book>, id: nat)
    ensures forall b :: multiset(Without(rows, id))[b] == if b.id == id then 0 else multiset(rows)[b]
    ensures forall b :: b in Without(rows, id) <==> b in rows && b.id != id
  {
    if rows != [] {
      WithoutExact(rows[1..], id);
      assert rows == [rows[0]] + rows[1..];
    }
  }

  /** A DELETE for an id that no row carries leaves the table as it was. */
  lemma {:induction false} WithoutAbsentIsNoOp(rows: seq<Book>, id: nat)
    requires Absent(rows, id)
    ensures Without(rows, id) == rows
  {
    if rows != [] {
      assert Absent(rows[1..], id) by {
        forall i | 0 <= i < |rows| - 1 ensures rows[1..][i].id != id {
          assert rows[1..][i] == rows[i + 1];
        }
      }
      WithoutAbsentIsNoOp(rows[1..], id);
    }
  }

  /** Deleting the same id twice is the same as deleting it once. */
  lemma WithoutIdempotent(rows: seq<Book>, id: nat)
    ensures Without(Without(rows, id), id) == Without(rows, id)
  {
    WithoutAbsentIsNoOp(Without(rows, id), id);
  }

  /** Returning a book undoes checking it out: on a consistent table where
      the id's rows are on the shelf, borrowing and then returning gives back
      the table. */
  lemma BorrowThenReturn(rows: seq<Book>, id: nat, name: string)
    requires AllConsistent(rows)
    requires forall i :: 0 <= i < |rows| && rows[i].id == id ==> rows[i].status == Available
    ensures UpdateWhere(UpdateWhere(rows, id, Borrowed, Some(name)), id, Available, None) == rows
  {
    var r := UpdateWhere(UpdateWhere(rows, id, Borrowed, Some(name)), id, Available, None);
    forall i | 0 <= i < |rows| ensures r[i] == rows[i] {
      assert Consistent(rows[i]);
    }
  }

  /** A DELETE keeps the key unique, every id among those issued, and every
      surviving row's pairing of status and borrower. */
  lemma WithoutKeepsInvariants(rows: seq<Book>, id: nat, ids: set<nat>)
    ensures UniqueIds(rows) ==> UniqueIds(Without(rows, id))
    ensures IdsIn(rows, ids) ==> IdsIn(Without(rows, id), ids)
    ensures AllConsistent(rows) ==> AllConsistent(Without(rows, id))
  {
    var r := Without(rows, id);
    if UniqueIds(rows) {
      SubsequencePairwise(r, rows, (a: Book, b: Book) => a.id != b.id);
    }
    SubsequenceMembers(r, rows);
    forall i | 0 <= i < |r| ensures exists k :: 0 <= k < |rows| && rows[k] == r[i] {
      assert r[i] in rows;
    }
  }

  /** `ORDER BY added_date DESC`: most recently added first. */
  predicate NewestFirst(rows: seq<Book>) {
    forall i, j :: 0 <= i < j < |rows| ==> rows[i].addedDate >= rows[j].addedDate
  }

  /** Rows in the order they were added, oldest first, no two in the same
      second (how `addBook` with a rising clock leaves the table). */
  predicate Chronological(rows: seq<Book>) {
    forall i, j :: 0 <= i < j < |rows| ==> rows[i].addedDate < rows[j].addedDate
  }

  /** Every row was added no later than `d`. */
  predicate AddedBy(rows: seq<Book>, d: nat) {
    forall i :: 0 <= i < |rows| ==> rows[i].addedDate <= d
  }

  /** Every row was added no earlier than `d`. */
  predicate AddedSince(rows: seq<Book>, d: nat) {
    forall i :: 0 <= i < |rows| ==> rows[i].addedDate >= d
  }

  /** Places `b` into a newest-first list after every row at least as recent. */
  function InsertByDate(b: Book, sorted: seq<Book>): (r: seq<Book>)
    ensures |r| == |sorted| + 1
    ensures AddedSince(sorted, b.addedDate) ==> r == sorted + [b]
  {
    if sorted == [] then [b]
    else if sorted[0].addedDate >= b.addedDate then
      assert sorted == [sorted[0]] + sorted[1..];
      [sorted[0]] + InsertByDate(b, sorted[1..])
    else
      [b] + sorted
  }

  /** Inserting adds `b` and loses nothing. */
  lemma {:induction false} InsertPermutes(b: Book, sorted: seq<Book>)
    ensures multiset(InsertByDate(b, sorted)) == multiset(sorted) + multiset{b}
    decreases |sorted|
  {
    if sorted != [] && sorted[0].addedDate >= b.addedDate {
      InsertPermutes(b, sorted[1..]);
      assert sorted == [sorted[0]] + sorted[1..];
    }
  }

  /** A date bound that holds for `b` and for every row of `sorted` holds for
      every row of the result. */
  lemma {:induction false} InsertWithin(b: Book, sorted: seq<Book>, lo: nat, hi: nat)
    requires lo <= b.addedDate <= hi
    requires AddedSince(sorted, lo) && AddedBy(sorted, hi)
    ensures AddedSince(InsertByDate(b, sorted), lo) && AddedBy(InsertByDate(b, sorted), hi)
    decreases |sorted|
  {
    if sorted != [] && sorted[0].addedDate >= b.addedDate {
      var tail := sorted[1..];
      assert forall i :: 0 <= i < |tail| ==> tail[i] == sorted[i + 1];
      InsertWithin(b, tail, lo, hi);
      var r := [sorted[0]] + InsertByDate(b, tail);
      assert forall i :: 1 <= i < |r| ==> r[i] == InsertByDate(b, tail)[i - 1];
    }
  }

  /** Inserting into a newest-first list keeps it newest first. */
  lemma {:induction false} InsertKeepsOrder(b: Book, sorted: seq<Book>)
    requires NewestFirst(sorted)
    ensures NewestFirst(InsertByDate(b, sorted))
    decreases |sorted|
  {
    if sorted != [] && sorted[0].addedDate >= b.addedDate {
      var tail := sorted[1..];
      assert forall i :: 0 <= i < |tail| ==> tail[i] == sorted[i + 1];
      InsertKeepsOrder(b, tail);
      InsertWithin(b, tail, 0, sorted[0].addedDate);
      var rest := InsertByDate(b, tail);
      var r := [sorted[0]] + rest;
      forall i, j | 0 <= i < j < |r| ensures r[i].addedDate >= r[j].addedDate {
        assert r[j] == rest[j - 1];
        if i > 0 {
          assert r[i] == rest[i - 1];
        }
      }
    }
  }

  /** The result order of the SELECT. Rows with equal timestamps keep no
      promised order; this model puts the later-stored one first. */
  function OrderByDateDesc(rows: seq<Book>): (r: seq<Book>)
    ensures multiset(r) == multiset(rows)
    ensures |r| == |rows|
    ensures NewestFirst(r)
  {
    if rows == [] then []
    else
      assert rows == [rows[0]] + rows[1..];
      InsertKeepsOrder(rows[0], OrderByDateDesc(rows[1..]));
      InsertPermutes(rows[0], OrderByDateDesc(rows[1..]));
      InsertByDate(rows[0], OrderByDateDesc(rows[1..]))
  }

  /** Sorting keeps a lower bound on the dates. */
  lemma {:induction false} OrderKeepsSince(rows: seq<Book>, lo: nat)
    requires AddedSince(rows, lo)
    ensures AddedSince(OrderByDateDesc(rows), lo)
  {
    if rows != [] {
      var tail := rows[1..];
      assert forall i :: 0 <= i < |tail| ==> tail[i] == rows[i + 1];
      OrderKeepsSince(tail, lo);
      var sorted := OrderByDateDesc(tail);
      var hi := if |sorted| == 0 || sorted[0].addedDate <= rows[0].addedDate then rows[0].addedDate else sorted[0].addedDate;
      assert AddedBy(sorted, hi);
      InsertWithin(rows[0], sorted, lo, hi);
    }
  }

  function Reverse(s: seq<Book>): (r: seq<Book>) {
    if s == [] then [] else Reverse(s[1..]) + [s[0]]
  }

  /** On a table whose rows were stored oldest first, the listing is exactly
      the table reversed: inserting A, then B, then C lists C, B, A. */
  lemma {:induction false} ChronologicalListing(rows: seq<Book>)
    requires Chronological(rows)
    ensures OrderByDateDesc(rows) == Reverse(rows)
  {
    if rows != [] {
      var tail := rows[1..];
      assert forall i :: 0 <= i < |tail| ==> tail[i] == rows[i + 1];
      ChronologicalListing(tail);
      OrderKeepsSince(tail, rows[0].addedDate);
    }
  }

  /** The store: the module-level `db` and `fileHandle` of the source and the
      table inside `db`. `file` is what the connected file holds, as far as
      the store knows it. */
  class Store {
    var books: seq<Book>       // the table, in the order rows were stored
    var lastId: nat            // sqlite_sequence: the largest id handed out
    var clock: nat             // CURRENT_TIMESTAMP, in whole seconds
    var initialized: bool      // db !== null
    var connected: bool        // fileHandle !== null
    ghost var issued: set<nat> // ids known to be taken: those added since the database was created or opened, and those in the opened file
    ghost var file: Option<DbImage>

    ghost predicate Valid()
      reads this
    {
      && UniqueIds(books)
      && IdsIn(books, issued)
      && (forall n :: n in issued ==> n <= lastId)
      && (!initialized ==> books == [])
    }

    /** `db.export()`: the image of the current database. */
    function Exported(): (img: DbImage)
      reads this
      requires Valid()
      ensures WellFormed(img)
      ensures img.rows == books && img.sequence == lastId
    {
      assert IdsAtMost(books, lastId) by {
        forall i | 0 <= i < |books| ensures books[i].id <= lastId {
          assert books[i].id in issued;
        }
      }
      DbImage(books, lastId)
    }

    /** What `saveDatabase` leaves behind: it writes only when the database
        exists and a file is connected, and a failed write leaves the file as
        it was and rejects. */
    ghost function SavedAs(ok: bool, writeOk: bool, before: Option<DbImage>): (r: bool)
      reads this
      requires Valid()
      ensures r && !ok ==> initialized && connected && file == before
      ensures r && file != before ==> ok && file == Some(Exported())
    {
      && ok == (!(initialized && connected) || writeOk)
      && file == (if initialized && connected && writeOk then Some(Exported()) else before)
    }

    /** Module load: `db = null`, `fileHandle = null`. */
    constructor (now: nat)
      ensures Valid()
      ensures books == [] && lastId == 0 && clock == now && issued == {}
      ensures !initialized && !connected && file == None
    {
      books, lastId, clock := [], 0, now;
      initialized, connected := false, false;
      issued, file := {}, None;
    }

    /** `initDatabase`: a fresh database with an empty `books` table. When the
        engine cannot be loaded the promise rejects and nothing changes. */
    method InitDatabase(engineLoaded: bool)
      requires Valid()
      modifies this
      ensures Valid()
      ensures engineLoaded ==> initialized && books == [] && lastId == 0 && issued == {}
      ensures !engineLoaded ==> unchanged(this)
      ensures connected == old(connected) && file == old(file) && clock == old(clock)
    {
      if engineLoaded {
        books, lastId, issued := [], 0, {};
        initialized := true;
      }
    }

    /** `saveDatabase`. */
    method SaveDatabase(writeOk: bool) returns (ok: bool)
      requires Valid()
      modifies this`file
      ensures Valid()
      ensures SavedAs(ok, writeOk, old(file))
      ensures !(initialized && connected) ==> ok && unchanged(this)
    {
      if !initialized || !connected {
        return true;
      }
      if writeOk {
        file := Some(Exported());
        ok := true;
      } else {
        ok := false;
      }
    }

    /** `addBook`: appends one row with a fresh id, status Available, no
        borrower and the current time, then saves. A no-op before the
        database exists. */
    method AddBook(d: Draft, elapsed: nat, writeOk: bool) returns (ok: bool)
      requires Valid()
      modifies this
      ensures Valid()
      ensures initialized == old(initialized) && connected == old(connected)
      ensures !old(initialized) ==> ok && unchanged(this)
      ensures old(initialized) ==>
        && clock == old(clock) + elapsed
        && lastId == old(lastId) + 1
        && books == old(books) + [Inserted(lastId, d, clock)]
        && issued == old(issued) + {lastId}
        && lastId !in old(issued)
        && (forall n :: n in old(issued) ==> n < lastId)
      ensures AllConsistent(old(books)) ==> AllConsistent(books)
      ensures old(initialized) ==> SavedAs(ok, writeOk, old(file))
    {
      if !initialized {
        return true;
      }
      clock := clock + elapsed;
      var id := lastId + 1;
      var row := Inserted(id, d, clock);
      assert IdsAtMost(books, lastId) by {
        forall i | 0 <= i < |books| ensures books[i].id <= lastId {
          assert books[i].id in issued;
        }
      }
      FreshIdKeepsKey(books, lastId, row);
      assert IdsIn(books + [row], issued + {id}) by {
        var r := books + [row];
        forall i | 0 <= i < |r| ensures r[i].id in issued + {id} {
          if i < |books| { assert r[i] == books[i]; }
        }
      }
      assert AllConsistent(books) ==> AllConsistent(books + [row]) by {
        if AllConsistent(books) {
          forall i | 0 <= i < |books| + 1 ensures Consistent((books + [row])[i]) {
            if i < |books| { assert (books + [row])[i] == books[i]; }
          }
        }
      }
      books := books + [row];
      lastId := id;
      issued := issued + {id};
      ok := SaveDatabase(writeOk);
    }

    /** `updateBookStatus`: sets status and borrower of the row with that id
        (the store does not check that the two belong together), then saves. */
    method UpdateBookStatus(id: nat, status: Status, borrower: Option<string>, writeOk: bool) returns (ok: bool)
      requires Valid()
      modifies this
      ensures Valid()
      ensures initialized == old(initialized) && connected == old(connected)
      ensures lastId == old(lastId) && issued == old(issued) && clock == old(clock)
      ensures books == if old(initialized) then UpdateWhere(old(books), id, status, borrower) else old(books)
      ensures AllConsistent(old(books)) && PairOk(status, borrower) ==> AllConsistent(books)
      ensures !old(initialized) ==> ok && unchanged(this)
      ensures old(initialized) ==> SavedAs(ok, writeOk, old(file))
    {
      if !initialized {
        return true;
      }
      UpdateKeepsInvariants(books, id, status, borrower, issued);
      books := UpdateWhere(books, id, status, borrower);
      ok := SaveDatabase(writeOk);
    }

    /** `deleteBook`: removes the row with that id, then saves. */
    method DeleteBook(id: nat, writeOk: bool) returns (ok: bool)
      requires Valid()
      modifies this
      ensures Valid()
      ensures initialized == old(initialized) && connected == old(connected)
      ensures lastId == old(lastId) && issued == old(issued) && clock == old(clock)
      ensures books == if old(initialized) then Without(old(books), id) else old(books)
      ensures AllConsistent(old(books)) ==> AllConsistent(books)
      ensures !old(initialized) ==> ok && unchanged(this)
      ensures old(initialized) ==> SavedAs(ok, writeOk, old(file))
    {
      if !initialized {
        return true;
      }
      var rest := Without(books, id);
      assert UniqueIds(rest) && IdsIn(rest, issued) && (AllConsistent(books) ==> AllConsistent(rest)) by {
        WithoutKeepsInvariants(books, id, issued);
      }
      books := rest;
      ok := SaveDatabase(writeOk);
    }

    /** `getBooks`: the table newest first; empty before the database exists. */
    function GetBooks(): (r: seq<Book>)
      reads this
      ensures !initialized ==> r == []
      ensures initialized ==> multiset(r) == multiset(books)
      ensures NewestFirst(r)
    {
      if !initialized then [] else OrderByDateDesc(books)
    }

    /** `connectToFile`. `picked` is whether the open dialog returned a file;
        `image` is what reading and opening it gave (None when reading, loading
        the engine or opening the image threw). The handle is assigned before
        the file is read, so a failed read still leaves the store connected to
        the picked file, with the old table. */
    method ConnectToFile(picked: bool, image: Option<Loaded>) returns (ok: bool)
      requires Valid()
      modifies this
      ensures Valid()
      ensures ok == (picked && image.Some?)
      ensures connected == (old(connected) || picked)
      ensures clock == old(clock)
      ensures !picked ==> unchanged(this)
      ensures picked ==> file == image
      ensures ok ==>
        initialized && books == image.value.rows && lastId == image.value.sequence && issued == RowIds(image.value.rows)
      ensures !ok ==>
        initialized == old(initialized) && books == old(books) && lastId == old(lastId) && issued == old(issued)
    {
      if !picked {
        return false;
      }
      connected := true;
      match image {
        case None =>
          file := None;
          ok := false;
        case Some(img) =>
          var rows := img.rows;
          books, lastId := rows, img.sequence;
          issued := RowIds(rows);
          forall n | n in issued ensures n <= lastId {
            var i :| 0 <= i < |rows| && rows[i].id == n;
          }
          assert IdsIn(rows, issued);
          initialized := true;
          file := image;
          ok := true;
      }
    }

    /** `createNewFile`: connects to a newly chosen destination and saves the
        current database into it. What the new file holds is unknown until
        that save succeeds. */
    method CreateNewFile(picked: bool, writeOk: bool) returns (ok: bool)
      requires Valid()
      modifies this
      ensures Valid()
      ensures connected == (old(connected) || picked)
      ensures books == old(books) && lastId == old(lastId) && issued == old(issued)
      ensures initialized == old(initialized) && clock == old(clock)
      ensures !picked ==> !ok && unchanged(this)
      ensures picked ==> SavedAs(ok, writeOk, None)
      ensures ok && initialized ==> file == Some(Exported())
    {
      if !picked {
        return false;
      }
      connected := true;
      file := None;
      ok := SaveDatabase(writeOk);
    }
  }
}
