/** Sessions driven through the store's contracts alone, each on a store of
    its own: books added one second apart list newest first, a deleted id
    is not handed out again, and a database saved to a new file and opened
    again from it comes back with the same rows and counter. */
module Scenario {
  import opened Types
  import opened Database
  import opened App

  /** Three books added one second apart list as C, B, A. */
  method ListThree(a: Draft, b: Draft, c: Draft) returns (listing: seq<Book>)
    ensures listing == [Inserted(3, c, 3), Inserted(2, b, 2), Inserted(1, a, 1)]
  {
    var s := new Store(0);
    s.InitDatabase(true);
    var ok := s.AddBook(a, 1, true);
    assert s.books == [Inserted(1, a, 1)] && s.lastId == 1 && s.clock == 1;
    ok := s.AddBook(b, 1, true);
    assert s.books == [Inserted(1, a, 1), Inserted(2, b, 2)] && s.lastId == 2 && s.clock == 2;
    ok := s.AddBook(c, 1, true);
    assert s.books == [Inserted(1, a, 1), Inserted(2, b, 2), Inserted(3, c, 3)];
    ListingOfThree(Inserted(1, a, 1), Inserted(2, b, 2), Inserted(3, c, 3));
    listing := s.GetBooks();
  }

  lemma ReverseOfThree(x: Book, y: Book, z: Book)
    ensures Reverse([x, y, z]) == [z, y, x]
  {
    assert [z][1..] == [];
    assert Reverse([z]) == [z];
    assert [y, z][1..] == [z];
    assert Reverse([y, z]) == [z, y];
    assert [x, y, z][1..] == [y, z];
  }

  /** Three rows stored oldest first, in distinct seconds, list newest first. */
  lemma ListingOfThree(x: Book, y: Book, z: Book)
    requires x.addedDate < y.addedDate < z.addedDate
    ensures OrderByDateDesc([x, y, z]) == [z, y, x]
  {
    var rows := [x, y, z];
    assert Chronological(rows) by {
      forall i, j | 0 <= i < j < 3 ensures rows[i].addedDate < rows[j].addedDate {
      }
    }
    ChronologicalListing(rows);
    ReverseOfThree(x, y, z);
  }

  /** After two books are added and the second is deleted, the next book gets
      id 3, not the freed id 2. */
  method NextIdAfterDelete(a: Draft, b: Draft, d: Draft) returns (ids: seq<nat>)
    ensures ids == [1, 3]
  {
    var s := new Store(0);
    s.InitDatabase(true);
    var ok := s.AddBook(a, 0, true);
    ok := s.AddBook(b, 0, true);
    ok := s.DeleteBook(2, true);
    assert s.books == [Inserted(1, a, 0)];
    ok := s.AddBook(d, 0, true);
    ids := [s.books[0].id, s.books[1].id];
  }

  /** Any database saved into a new file and then opened from that file has
      the rows and the counter it was saved with. */
  method SaveAndReopen(s: Store) returns (ok: bool)
    requires s.Valid() && s.initialized
    modifies s
    ensures s.Valid() && ok && s.initialized && s.connected
    ensures s.books == old(s.books) && s.lastId == old(s.lastId)
  {
    ok := s.CreateNewFile(true, true);
    var saved := s.Exported();
    assert s.file == Some(saved);
    ok := s.ConnectToFile(true, Some(saved));
  }

  /** A picked file that fails to open still becomes the save target: the
      next add overwrites it with the in-memory table, while the component
      still shows the session as not connected. */
  method FailedConnectThenAdd(lib: Library, d: Draft) returns (completed: bool)
    requires lib.Valid() && lib.store.initialized && !lib.isConnected
    requires d.title != "" && d.author != ""
    modifies lib, lib.store
    ensures completed && !lib.isConnected && lib.store.connected && lib.Valid()
    ensures lib.store.books == old(lib.store.books) + [Inserted(lib.store.lastId, d, lib.store.clock)]
    ensures lib.store.file == Some(lib.store.Exported())
  {
    lib.HandleConnect(true, None);
    lib.EditDraft(d);
    completed := lib.HandleAddBook(0, true);
  }
}
