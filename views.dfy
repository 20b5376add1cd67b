/** The two pure views the controller derives from its snapshot (App.tsx):
    the search filter and the statistics record. */
module Views {
  import opened Types
  import opened Seqs

  /** Lower-casing, on ASCII letters only. */
  function LowerChar(c: char): char {
    if 'A' <= c <= 'Z' then (c as int + 32) as char else c
  }

  function Lower(s: string): (r: string)
    ensures |r| == |s|
    ensures forall i :: 0 <= i < |r| ==> !('A' <= r[i] <= 'Z')
    ensures forall i :: 0 <= i < |s| && !('A' <= s[i] <= 'Z') ==> r[i] == s[i]
    ensures forall i :: 0 <= i < |s| && 'A' <= s[i] <= 'Z' ==> r[i] as int == s[i] as int + 32
  {
    seq(|s|, i requires 0 <= i < |s| => LowerChar(s[i]))
  }

  /** Lower-casing twice is lower-casing once. */
  lemma LowerIdempotent(s: string)
    ensures Lower(Lower(s)) == Lower(s)
  {
  }

  /** `String.prototype.includes`: `sub` occurs in `s` at some offset. */
  function Contains(s: string, sub: string): (r: bool)
    ensures sub <= s ==> r
    ensures r ==> |sub| <= |s|
    decreases |s|
  {
    sub <= s || (s != [] && Contains(s[1..], sub))
  }

  /** `Contains` is occurrence at an offset: `sub` is a prefix of some suffix
      of `s`, in both directions. */
  lemma {:induction false} ContainsAtOffset(s: string, sub: string)
    ensures Contains(s, sub) <==> exists k :: 0 <= k <= |s| && sub <= s[k..]
    decreases |s|
  {
    if s == [] {
      assert forall k :: 0 <= k <= |s| ==> s[k..] == s;
    } else {
      var t := s[1..];
      ContainsAtOffset(t, sub);
      assert s[0..] == s;
      if Contains(s, sub) && !(sub <= s) {
        var k :| 0 <= k <= |t| && sub <= t[k..];
        assert t[k..] == s[k + 1..];
      }
      if exists k :: 0 <= k <= |s| && sub <= s[k..] {
        var k :| 0 <= k <= |s| && sub <= s[k..];
        if k > 0 {
          assert t[k - 1..] == s[k..];
        }
      }
    }
  }

  /** A book is found by a term when its lower-cased title, author or category
      contains the lower-cased term. */
  function Matches(b: Book, term: string): (r: bool)
    ensures term == "" ==> r
  {
    var t := Lower(term);
    Contains(Lower(b.title), t) || Contains(Lower(b.author), t) || Contains(Lower(b.category), t)
  }

  /** `filteredBooks`: the books the search term finds, in snapshot order. */
  function Search(books: seq<Book>, term: string): (r: seq<Book>)
    ensures forall b :: b in r <==> b in books && Matches(b, term)
    ensures forall b :: multiset(r)[b] == if Matches(b, term) then multiset(books)[b] else 0
    ensures Subsequence(r, books)
  {
    FilterMembers(books, (b: Book) => Matches(b, term));
    FilterMultiset(books, (b: Book) => Matches(b, term));
    FilterSubsequence(books, (b: Book) => Matches(b, term));
    Filter(books, (b: Book) => Matches(b, term))
  }

  /** The empty term is contained in every string, so it keeps every book. */
  lemma SearchEmptyKeepsAll(books: seq<Book>)
    ensures Search(books, "") == books
  {
    assert forall b :: Matches(b, "") by {
      forall b: Book ensures Matches(b, "") {
        assert Lower("") == "";
        assert "" <= Lower(b.title);
      }
    }
  }

  /** The search ignores case: terms that lower-case alike find the same books. */
  lemma SearchIgnoresCase(books: seq<Book>, t1: string, t2: string)
    requires Lower(t1) == Lower(t2)
    ensures Search(books, t1) == Search(books, t2)
  {
    FilterCongruence(books, (b: Book) => Matches(b, t1), (b: Book) => Matches(b, t2));
  }

  /** Lower-casing the term first changes nothing: the search lower-cases it
      anyway. */
  lemma SearchLowered(books: seq<Book>, term: string)
    ensures Search(books, Lower(term)) == Search(books, term)
  {
    LowerIdempotent(term);
    SearchIgnoresCase(books, Lower(term), term);
  }

  /** `books.filter(b => b.status === st)`. */
  function WithStatus(books: seq<Book>, st: Status): (r: seq<Book>)
    ensures forall b :: b in r <==> b in books && b.status == st
    ensures forall b :: multiset(r)[b] == if b.status == st then multiset(books)[b] else 0
    ensures |r| <= |books|
  {
    FilterMembers(books, (b: Book) => b.status == st);
    FilterMultiset(books, (b: Book) => b.status == st);
    Filter(books, (b: Book) => b.status == st)
  }

  /** Every book is either available or borrowed, so the two counts add up to
      the total. */
  lemma {:induction false} StatusSplit(books: seq<Book>)
    ensures |WithStatus(books, Available)| + |WithStatus(books, Borrowed)| == |books|
  {
    if books != [] {
      StatusSplit(books[1..]);
    }
  }

  /** `new Set(books.map(b => b.category))`. */
  function Categories(books: seq<Book>): (r: set<string>)
    ensures forall i :: 0 <= i < |books| ==> books[i].category in r
    ensures forall c :: c in r ==> exists i :: 0 <= i < |books| && books[i].category == c
    ensures r == {} <==> books == []
  {
    var r := set i | 0 <= i < |books| :: books[i].category;
    assert books != [] ==> books[0].category in r;
    r
  }

  lemma CategoriesCons(books: seq<Book>)
    requires books != []
    ensures Categories(books) == {books[0].category} + Categories(books[1..])
  {
    var tail := books[1..];
    forall c | c in Categories(books) ensures c in {books[0].category} + Categories(tail) {
      var i :| 0 <= i < |books| && books[i].category == c;
      if i > 0 {
        assert tail[i - 1] == books[i];
      }
    }
    forall c | c in Categories(tail) ensures c in Categories(books) {
      var i :| 0 <= i < |tail| && tail[i].category == c;
      assert books[i + 1] == tail[i];
    }
  }

  /** There are never more categories than books. */
  lemma {:induction false} CategoriesBound(books: seq<Book>)
    ensures |Categories(books)| <= |books|
  {
    if books != [] {
      CategoriesBound(books[1..]);
      CategoriesCons(books);
    }
  }

  /** `stats`: the counters shown above the collection. */
  function ComputeStats(books: seq<Book>): (s: LibraryStats)
    ensures s.totalBooks == |books|
    ensures s.availableBooks == |WithStatus(books, Available)| && s.borrowedBooks == |WithStatus(books, Borrowed)|
    ensures s.categoriesCount == |Categories(books)|
    ensures s.availableBooks + s.borrowedBooks == s.totalBooks
    ensures s.categoriesCount <= s.totalBooks
    ensures s.categoriesCount == 0 <==> books == []
    ensures (forall i :: 0 <= i < |books| ==> books[i].status == Available) ==> s.borrowedBooks == 0
  {
    StatusSplit(books);
    CategoriesBound(books);
    assert books != [] ==> books[0].category in Categories(books);
    LibraryStats(
      |books|,
      |WithStatus(books, Available)|,
      |WithStatus(books, Borrowed)|,
      |Categories(books)|)
  }

  /** "FITZGERALD" occurs, lower-cased, in the lower-cased author
      "F. Scott Fitzgerald". */
  lemma FitzgeraldFound(b: Book)
    requires b.author == "F. Scott Fitzgerald"
    ensures Matches(b, "FITZGERALD")
  {
    var t := Lower("FITZGERALD");
    assert t == "fitzgerald";
    var a := Lower(b.author);
    assert t <= a[9..] by {
      assert a[9..] == "fitzgerald";
    }
    ContainsAtOffset(a, t);
  }

  /** A search for "FITZGERALD" finds "The Great Gatsby" by "F. Scott
      Fitzgerald", whatever the case of the term, and nothing else. */
  lemma SearchExample()
    ensures var g := Book(1, "The Great Gatsby", "F. Scott Fitzgerald", "", "Fiction", Available, None, "", 0);
      var h := Book(2, "Dune", "Herbert", "", "SF", Available, None, "", 0);
      Search([g, h], "FITZGERALD") == [g]
  {
    var g := Book(1, "The Great Gatsby", "F. Scott Fitzgerald", "", "Fiction", Available, None, "", 0);
    var h := Book(2, "Dune", "Herbert", "", "SF", Available, None, "", 0);
    var term := "FITZGERALD";
    FitzgeraldFound(g);
    assert !Matches(h, term) by {
      assert |Lower(h.title)| < |term| && |Lower(h.author)| < |term| && |Lower(h.category)| < |term|;
    }
    var r := Search([h], term);
    assert h !in r;
    assert r == [];
  }

  /** Categories are counted once however many books share them: a
      non-empty collection all in one category counts one category. */
  lemma SingleCategory(books: seq<Book>, c: string)
    requires books != []
    requires forall i :: 0 <= i < |books| ==> books[i].category == c
    ensures ComputeStats(books).categoriesCount == 1
  {
    var cs := Categories(books);
    assert books[0].category in cs;
    assert cs == {c};
  }

  /** The status count splits over a concatenation. */
  lemma WithStatusAppend(s: seq<Book>, t: seq<Book>, st: Status)
    ensures WithStatus(s + t, st) == WithStatus(s, st) + WithStatus(t, st)
  {
    FilterAppend(s, t, (b: Book) => b.status == st);
  }

  /** A collection all of one status counts every book for that status. */
  lemma WithStatusAll(s: seq<Book>, st: Status)
    requires forall i :: 0 <= i < |s| ==> s[i].status == st
    ensures WithStatus(s, st) == s
  {
  }

  /** A collection with no book of a status counts none for it. */
  lemma WithStatusNone(s: seq<Book>, st: Status)
    requires forall i :: 0 <= i < |s| ==> s[i].status != st
    ensures WithStatus(s, st) == []
  {
    FilterNone(s, (b: Book) => b.status == st);
  }

  /** Two non-empty collections, each in a category of its own, have exactly
      those two categories together. */
  lemma CategoriesOfTwo(s: seq<Book>, t: seq<Book>, x: string, y: string)
    requires s != [] && t != []
    requires forall i :: 0 <= i < |s| ==> s[i].category == x
    requires forall i :: 0 <= i < |t| ==> t[i].category == y
    ensures Categories(s + t) == {x, y}
  {
    var books := s + t;
    assert books[0] == s[0] && books[|s|] == t[0];
    forall c | c in Categories(books) ensures c == x || c == y {
      var i :| 0 <= i < |books| && books[i].category == c;
      if i < |s| {
        assert books[i] == s[i];
      } else {
        assert books[i] == t[i - |s|];
      }
    }
  }

  /** Available books beside borrowed ones count as the two sizes. */
  lemma ShelfCounts(shelf: seq<Book>, out: seq<Book>)
    requires forall i :: 0 <= i < |shelf| ==> shelf[i].status == Available
    requires forall i :: 0 <= i < |out| ==> out[i].status == Borrowed
    ensures |WithStatus(shelf + out, Available)| == |shelf|
    ensures |WithStatus(shelf + out, Borrowed)| == |out|
  {
    WithStatusAppend(shelf, out, Available);
    WithStatusAll(shelf, Available);
    WithStatusNone(out, Available);
    WithStatusAppend(shelf, out, Borrowed);
    WithStatusAll(out, Borrowed);
    WithStatusNone(shelf, Borrowed);
  }

  /** A shelf of available books in one category beside a pile of borrowed
      books in another gives the counters the two sizes and two categories;
      five books, three on the shelf and two out, give 5, 3, 2 and 2. */
  lemma ShelvesStats(shelf: seq<Book>, out: seq<Book>, x: string, y: string)
    requires shelf != [] && out != [] && x != y
    requires forall i :: 0 <= i < |shelf| ==> shelf[i].status == Available && shelf[i].category == x
    requires forall i :: 0 <= i < |out| ==> out[i].status == Borrowed && out[i].category == y
    ensures ComputeStats(shelf + out) == LibraryStats(|shelf| + |out|, |shelf|, |out|, 2)
  {
    ShelfCounts(shelf, out);
    CategoriesOfTwo(shelf, out, x, y);
  }
}
