/** The inventory controller (App.tsx): the component state the handlers
    update and the store calls they make. Each handler runs to completion
    before the next one starts. A handler that awaits a store call which
    rejects stops there: `completed` is false and the statements after the
    await do not run. */
module App {
  import opened Types
  import opened Database

  class Library {
    const store: Store
    var books: seq<Book>            // the snapshot shown on screen
    var isDbReady: bool
    var isConnected: bool
    var showAddModal: bool
    var borrowDialog: Option<nat>   // `showBorrowModal`: the id being checked out
    var newBook: Draft
    var borrowerName: string
    var searchTerm: string

    ghost predicate Valid()
      reads store
    {
      store.Valid()
    }

    /** The snapshot is what the store lists now. */
    ghost predicate InSync()
      reads this`books, store
    {
      books == store.GetBooks()
    }

    /** Once the database exists and a file is connected, the file holds
        the current table. */
    ghost predicate FileCurrent()
      reads store
      requires Valid()
    {
      store.initialized && store.connected ==> store.file == Some(store.Exported())
    }

    /** The component's first render, over a store in its module-load state. */
    constructor (now: nat)
      ensures Valid() && fresh(store)
      ensures !store.initialized && !store.connected && store.books == []
      ensures store.lastId == 0 && store.clock == now && store.issued == {} && store.file == None
      ensures books == [] && !isDbReady && !isConnected && !showAddModal
      ensures borrowDialog == None && newBook == BlankDraft && borrowerName == "" && searchTerm == ""
    {
      store := new Store(now);
      books := [];
      isDbReady, isConnected, showAddModal := false, false, false;
      borrowDialog := None;
      newBook := BlankDraft;
      borrowerName, searchTerm := "", "";
    }

    /** `loadData`: replaces the snapshot with the store's listing. */
    method LoadData()
      requires Valid()
      modifies this`books
      ensures InSync()
    {
      books := store.GetBooks();
    }

    /** The mount effect: `initDatabase().then(...)` marks the database ready
        and loads the (empty) listing. */
    method Mount(engineLoaded: bool)
      requires Valid()
      modifies this, store
      ensures Valid()
      ensures engineLoaded ==>
        && isDbReady && store.initialized && store.books == [] && store.lastId == 0 && store.issued == {}
        && books == [] && InSync()
      ensures !engineLoaded ==> unchanged(store) && isDbReady == old(isDbReady) && books == old(books)
      ensures store.connected == old(store.connected) && store.file == old(store.file) && store.clock == old(store.clock)
      ensures isConnected == old(isConnected) && showAddModal == old(showAddModal) && searchTerm == old(searchTerm)
      ensures borrowDialog == old(borrowDialog) && newBook == old(newBook) && borrowerName == old(borrowerName)
    {
      store.InitDatabase(engineLoaded);
      if engineLoaded {
        isDbReady := true;
        LoadData();
      }
    }

    /** `handleConnect`: on success marks the session connected and reloads. */
    method HandleConnect(picked: bool, image: Option<Loaded>)
      requires Valid()
      modifies this, store
      ensures Valid()
      ensures store.connected == (old(store.connected) || picked) && store.clock == old(store.clock)
      ensures picked && image.Some? ==>
        && isConnected && store.initialized && store.file == image
        && store.books == image.value.rows && store.lastId == image.value.sequence
        && store.issued == RowIds(image.value.rows) && InSync()
      ensures !picked ==> unchanged(store)
      ensures picked && image.None? ==>
        && store.file == None && store.books == old(store.books) && store.lastId == old(store.lastId)
        && store.issued == old(store.issued) && store.initialized == old(store.initialized)
      ensures !(picked && image.Some?) ==> isConnected == old(isConnected) && books == old(books)
      ensures picked && image.Some? && AllConsistent(image.value.rows) ==> AllConsistent(store.books)
      ensures isDbReady == old(isDbReady) && showAddModal == old(showAddModal) && searchTerm == old(searchTerm)
      ensures borrowDialog == old(borrowDialog) && newBook == old(newBook) && borrowerName == old(borrowerName)
    {
      var ok := store.ConnectToFile(picked, image);
      if ok {
        isConnected := true;
        LoadData();
      }
    }

    /** `handleCreate`: on success marks the session connected and reloads.
        `createNewFile` resolves false when the first save fails. */
    method HandleCreate(picked: bool, writeOk: bool)
      requires Valid()
      modifies this, store
      ensures Valid()
      ensures store.books == old(store.books) && store.lastId == old(store.lastId) && store.issued == old(store.issued)
      ensures store.initialized == old(store.initialized) && store.clock == old(store.clock)
      ensures store.connected == (old(store.connected) || picked)
      ensures !picked ==> unchanged(store)
      ensures picked && store.initialized ==> store.file == (if writeOk then Some(store.Exported()) else None)
      ensures picked && !store.initialized ==> store.file == None
      ensures picked && (writeOk || !store.initialized) ==> isConnected && InSync()
      ensures !picked || (store.initialized && !writeOk) ==> isConnected == old(isConnected) && books == old(books)
      ensures isDbReady == old(isDbReady) && showAddModal == old(showAddModal) && searchTerm == old(searchTerm)
      ensures borrowDialog == old(borrowDialog) && newBook == old(newBook) && borrowerName == old(borrowerName)
    {
      var ok := store.CreateNewFile(picked, writeOk);
      if ok {
        isConnected := true;
        LoadData();
      }
    }

    /** `handleAddBook`: submits the form when title and author are filled in,
        then clears and closes the form and reloads. */
    method HandleAddBook(elapsed: nat, writeOk: bool) returns (completed: bool)
      requires Valid()
      modifies this, store
      ensures Valid()
      ensures store.initialized == old(store.initialized) && store.connected == old(store.connected)
      ensures completed <==>
        old(newBook.title) == "" || old(newBook.author) == "" || !(store.initialized && store.connected) || writeOk
      ensures !completed ==> store.file == old(store.file)
      ensures old(newBook.title) == "" || old(newBook.author) == "" ==>
        && completed && unchanged(store) && books == old(books)
        && newBook == old(newBook) && showAddModal == old(showAddModal)
      ensures old(newBook.title) != "" && old(newBook.author) != "" && old(store.initialized) ==>
        && store.clock == old(store.clock) + elapsed
        && store.lastId == old(store.lastId) + 1
        && store.books == old(store.books) + [Inserted(store.lastId, old(newBook), store.clock)]
        && store.issued == old(store.issued) + {store.lastId}
        && (forall n :: n in old(store.issued) ==> n < store.lastId)
      ensures !old(store.initialized) ==> unchanged(store)
      ensures completed && old(newBook.title) != "" && old(newBook.author) != "" ==>
        newBook == BlankDraft && !showAddModal && InSync() && FileCurrent()
      ensures !completed ==> books == old(books) && newBook == old(newBook) && showAddModal == old(showAddModal)
      ensures AllConsistent(old(store.books)) ==> AllConsistent(store.books)
      ensures isDbReady == old(isDbReady) && isConnected == old(isConnected) && searchTerm == old(searchTerm)
      ensures borrowDialog == old(borrowDialog) && borrowerName == old(borrowerName)
    {
      if newBook.title == "" || newBook.author == "" {
        return true;
      }
      var ok := store.AddBook(newBook, elapsed, writeOk);
      if !ok {
        return false;
      }
      newBook := BlankDraft;
      showAddModal := false;
      LoadData();
      completed := true;
    }

    /** `handleDeleteBook`: deletes after the user confirms, then reloads. */
    method HandleDeleteBook(id: nat, confirmed: bool, writeOk: bool) returns (completed: bool)
      requires Valid()
      modifies this, store
      ensures Valid()
      ensures store.initialized == old(store.initialized) && store.connected == old(store.connected)
      ensures store.lastId == old(store.lastId) && store.issued == old(store.issued) && store.clock == old(store.clock)
      ensures completed <==> !confirmed || !(store.initialized && store.connected) || writeOk
      ensures !completed ==> store.file == old(store.file) && books == old(books)
      ensures !confirmed ==> completed && unchanged(store) && books == old(books)
      ensures confirmed && old(store.initialized) ==> store.books == Without(old(store.books), id)
      ensures !old(store.initialized) ==> unchanged(store)
      ensures confirmed && completed ==> InSync() && FileCurrent()
      ensures AllConsistent(old(store.books)) ==> AllConsistent(store.books)
      ensures isDbReady == old(isDbReady) && isConnected == old(isConnected)
      ensures showAddModal == old(showAddModal) && searchTerm == old(searchTerm)
      ensures borrowDialog == old(borrowDialog) && borrowerName == old(borrowerName) && newBook == old(newBook)
    {
      if !confirmed {
        return true;
      }
      var ok := store.DeleteBook(id, writeOk);
      if !ok {
        return false;
      }
      LoadData();
      completed := true;
    }

    /** `handleToggleStatus`: an available book opens the check-out dialog
        for its id and leaves the store alone; any other book is returned,
        which clears its borrower. */
    method HandleToggleStatus(id: nat, currentStatus: Status, writeOk: bool) returns (completed: bool)
      requires Valid()
      modifies this, store
      ensures Valid()
      ensures store.initialized == old(store.initialized) && store.connected == old(store.connected)
      ensures store.lastId == old(store.lastId) && store.issued == old(store.issued) && store.clock == old(store.clock)
      ensures completed <==> currentStatus == Available || !(store.initialized && store.connected) || writeOk
      ensures !completed ==> store.file == old(store.file) && books == old(books)
      ensures currentStatus == Available ==>
        completed && unchanged(store) && borrowDialog == Some(id) && books == old(books)
      ensures currentStatus != Available ==>
        && store.books == (if old(store.initialized) then UpdateWhere(old(store.books), id, Available, None) else old(store.books))
        && borrowDialog == old(borrowDialog)
      ensures !old(store.initialized) ==> unchanged(store)
      ensures currentStatus != Available && completed ==> InSync() && FileCurrent()
      ensures AllConsistent(old(store.books)) ==> AllConsistent(store.books)
      ensures isDbReady == old(isDbReady) && isConnected == old(isConnected)
      ensures showAddModal == old(showAddModal) && searchTerm == old(searchTerm)
      ensures borrowerName == old(borrowerName) && newBook == old(newBook)
    {
      if currentStatus == Available {
        borrowDialog := Some(id);
        return true;
      }
      var ok := store.UpdateBookStatus(id, Available, None, writeOk);
      if !ok {
        return false;
      }
      LoadData();
      completed := true;
    }

    /** `handleConfirmBorrow`: with the dialog open and a name typed in, marks
        that id borrowed by that name, closes the dialog, clears the name and
        reloads. */
    method HandleConfirmBorrow(writeOk: bool) returns (completed: bool)
      requires Valid()
      modifies this, store
      ensures Valid()
      ensures store.initialized == old(store.initialized) && store.connected == old(store.connected)
      ensures store.lastId == old(store.lastId) && store.issued == old(store.issued) && store.clock == old(store.clock)
      ensures completed <==>
        old(borrowDialog) == None || old(borrowerName) == "" || !(store.initialized && store.connected) || writeOk
      ensures !completed ==> store.file == old(store.file) && books == old(books)
      ensures old(borrowDialog) == None || old(borrowerName) == "" ==>
        && completed && unchanged(store) && books == old(books)
        && borrowDialog == old(borrowDialog) && borrowerName == old(borrowerName)
      ensures old(borrowDialog).Some? && old(borrowerName) != "" && old(store.initialized) ==>
        store.books == UpdateWhere(old(store.books), old(borrowDialog).value, Borrowed, Some(old(borrowerName)))
      ensures !old(store.initialized) ==> unchanged(store)
      ensures completed && old(borrowDialog).Some? && old(borrowerName) != "" ==>
        borrowDialog == None && borrowerName == "" && InSync() && FileCurrent()
      ensures !completed ==> borrowDialog == old(borrowDialog) && borrowerName == old(borrowerName)
      ensures AllConsistent(old(store.books)) ==> AllConsistent(store.books)
      ensures isDbReady == old(isDbReady) && isConnected == old(isConnected)
      ensures showAddModal == old(showAddModal) && searchTerm == old(searchTerm) && newBook == old(newBook)
    {
      if borrowDialog == None || borrowerName == "" {
        return true;
      }
      var id, name := borrowDialog.value, borrowerName;
      var ok := store.UpdateBookStatus(id, Borrowed, Some(name), writeOk);
      if !ok {
        return false;
      }
      borrowDialog := None;
      borrowerName := "";
      LoadData();
      completed := true;
    }

    /** The dialog's Cancel button: `setShowBorrowModal(null)`. The typed name
        is kept. */
    method CancelBorrow()
      modifies this`borrowDialog
      ensures borrowDialog == None
    {
      borrowDialog := None;
    }

    /** The borrower-name input. */
    method TypeBorrowerName(name: string)
      modifies this`borrowerName
      ensures borrowerName == name
    {
      borrowerName := name;
    }

    /** The add form's inputs and its open and cancel buttons. */
    method EditDraft(d: Draft)
      modifies this`newBook
      ensures newBook == d
    {
      newBook := d;
    }

    method SetAddModal(open: bool)
      modifies this`showAddModal
      ensures showAddModal == open
    {
      showAddModal := open;
    }

    /** The search box. */
    method TypeSearchTerm(term: string)
      modifies this`searchTerm
      ensures searchTerm == term
    {
      searchTerm := term;
    }
  }
}
