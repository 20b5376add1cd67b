/** The record shapes of the catalogue (types.ts) and the pairing rule between
    a book's status and its borrower. */
module Types {

  datatype Option<+T> = None | Some(value: T)

  /** `'Available' | 'Borrowed'`: a book's status has exactly these two values. */
  datatype Status = Available | Borrowed

  /** One row of the `books` table. `added_date` is a timestamp in whole
      seconds; `borrower` is NULL (None) or a string. */
  datatype Book = Book(
    id: nat,
    title: string,
    author: string,
    isbn: string,
    category: string,
    status: Status,
    borrower: Option<string>,
    description: string,
    addedDate: nat)

  /** The derived counters shown above the collection. */
  datatype LibraryStats = LibraryStats(
    totalBooks: nat,
    availableBooks: nat,
    borrowedBooks: nat,
    categoriesCount: nat)

  /** The fields the add form collects and hands to the store. */
  datatype Draft = Draft(
    title: string,
    author: string,
    isbn: string,
    category: string,
    description: string)

  /** The empty form the controller starts with and resets to. */
  const BlankDraft: Draft := Draft("", "", "", "", "")

  /** A status and a borrower that belong together: an available book has no
      borrower, a borrowed one has a non-empty borrower name. */
  predicate PairOk(status: Status, borrower: Option<string>) {
    match status
    case Available => borrower == None
    case Borrowed => borrower.Some? && borrower.value != ""
  }

  predicate Consistent(b: Book) {
    PairOk(b.status, b.borrower)
  }

  predicate AllConsistent(rows: seq<Book>) {
    forall i :: 0 <= i < |rows| ==> Consistent(rows[i])
  }

  /** The pairing rule gives the catalogue's invariant in both directions:
      a consistent book is borrowed exactly when its borrower is a
      non-empty string. */
  lemma ConsistentMeansBorrowedIffNamed(b: Book)
    requires Consistent(b)
    ensures b.status == Borrowed <==> (b.borrower.Some? && b.borrower.value != "")
    ensures b.status == Available <==> b.borrower == None
  {
  }
}
