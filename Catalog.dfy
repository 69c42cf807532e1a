/**
 * The catalog (`Library`): the book and member lists, the two loan counters,
 * the copy totals and the printed summary. The catalog itself checks nothing;
 * every business rule lives in the lending service.
 */
module Catalog {
  import opened Numerics
  import opened Wrappers
  import opened Lists
  import opened Entities

  // ---------------------------------------------------------------------------
  // Removing a book: `List.remove` with the entry's own `equals`
  // ---------------------------------------------------------------------------

  /** The position of the first entry that `x.equals` accepts. */
  function FirstEqual(entries: seq<Entry>, x: Entry): (r: Option<nat>)
    reads x.Footprint(), RatedIn(entries)
    ensures r.Some? ==> r.value < |entries| && x.Equals(Some(entries[r.value]))
    ensures forall j :: 0 <= j < |entries| && (r.Some? ==> j < r.value) ==> !x.Equals(Some(entries[j]))
  {
    if entries == [] then None
    else if x.Equals(Some(entries[0])) then Some(0)
    else match FirstEqual(entries[1..], x)
      case None => None
      case Some(i) => Some(i + 1)
  }

  /** `books.remove(x)`: drop the first entry equal to `x`, if there is one. */
  function RemoveEqual(entries: seq<Entry>, x: Entry): seq<Entry>
    reads x.Footprint(), RatedIn(entries)
  {
    match FirstEqual(entries, x)
    case None => entries
    case Some(i) => RemoveAt(entries, i)
  }

  /**
   * Removing an entry that sits at position `i` deletes position `i` when no
   * earlier entry has the same title: `equals` only accepts entries with the
   * same title, so nothing before `i` can be taken instead.
   */
  lemma RemoveEqualAt(entries: seq<Entry>, i: nat)
    requires i < |entries|
    requires forall j :: 0 <= j < i ==> entries[j].Title() != entries[i].Title()
    ensures RemoveEqual(entries, entries[i]) == RemoveAt(entries, i)
  {
    var x := entries[i];
    EntryEqualsFacts(x, x);
    var k := FirstEqual(entries, x);
    assert k.Some?;
    if k.value < i {
      EntryEqualsFacts(x, entries[k.value]);
    }
  }

  // ---------------------------------------------------------------------------
  // Copy totals
  // ---------------------------------------------------------------------------

  /** The sum of `getQuantity()` over the entries, as a mathematical integer. */
  function TotalCopies(entries: seq<Entry>): int
    reads BooksIn(entries)
  {
    if entries == [] then 0
    else TotalCopies(entries[..|entries| - 1]) + entries[|entries| - 1].Quantity()
  }

  /** Taking one entry out of the catalog takes its copies out of the total. */
  lemma {:induction false} TotalWithout(entries: seq<Entry>, i: nat)
    requires i < |entries|
    ensures TotalCopies(RemoveAt(entries, i)) == TotalCopies(entries) - entries[i].Quantity()
  {
    var n := |entries|;
    if i < n - 1 {
      var init := entries[..n - 1];
      assert RemoveAt(entries, i)[..n - 2] == RemoveAt(init, i);
      assert RemoveAt(entries, i)[n - 2] == entries[n - 1];
      TotalWithout(init, i);
    } else {
      assert RemoveAt(entries, i) == entries[..n - 1];
    }
  }

  // ---------------------------------------------------------------------------
  // The summary text
  // ---------------------------------------------------------------------------

  /** One line of the summary: the caption, the number in decimal, a newline. */
  function Line(caption: string, n: int): string
  {
    caption + Decimal(n) + "\n"
  }

  /** The catalog summary: five labelled lines in a fixed order. */
  function SummaryText(total: int, available: int, loaned: int, members: int, loans: int): string
  {
    Line("Total Books: ", total) +
    (Line("Available Books: ", available) +
    (Line("Loaned Books: ", loaned) +
    (Line("Total Members: ", members) +
     Line("Total Loans: ", loans))))
  }

  /** A line ends at its first newline, so the number on it and the text after it can be read back. */
  lemma LineSplit(caption: string, n: int, rest: string, n': int, rest': string)
    requires Line(caption, n) + rest == Line(caption, n') + rest'
    ensures n == n' && rest == rest'
  {
    var s := Line(caption, n) + rest;
    var d, d' := Decimal(n), Decimal(n');
    assert s[..|caption|] == caption;
    var t := s[|caption|..];
    assert t == d + "\n" + rest;
    assert t == d' + "\n" + rest';
    assert forall i :: 0 <= i < |d| ==> t[i] == d[i];
    assert forall i :: 0 <= i < |d'| ==> t[i] == d'[i];
    assert t[|d|] == '\n' && t[|d'|] == '\n';
    assert |d| == |d'|;
    assert d == t[..|d|] == d';
    DecimalInjective(n, n');
    assert rest == t[|d| + 1..] == rest';
  }

  /** The summary text determines all five numbers it reports. */
  lemma SummaryDeterminesCounts(a: int, b: int, c: int, d: int, e: int,
                                a': int, b': int, c': int, d': int, e': int)
    requires SummaryText(a, b, c, d, e) == SummaryText(a', b', c', d', e')
    ensures a == a' && b == b' && c == c' && d == d' && e == e'
  {
    var r4 := Line("Total Members: ", d) + Line("Total Loans: ", e);
    var r4' := Line("Total Members: ", d') + Line("Total Loans: ", e');
    var r3 := Line("Loaned Books: ", c) + r4;
    var r3' := Line("Loaned Books: ", c') + r4';
    var r2 := Line("Available Books: ", b) + r3;
    var r2' := Line("Available Books: ", b') + r3';
    LineSplit("Total Books: ", a, r2, a', r2');
    LineSplit("Available Books: ", b, r3, b', r3');
    LineSplit("Loaned Books: ", c, r4, c', r4');
    LineSplit("Total Members: ", d, Line("Total Loans: ", e), d', Line("Total Loans: ", e'));
    LineSplit("Total Loans: ", e, [], e', []);
  }

  // ---------------------------------------------------------------------------
  // Library
  // ---------------------------------------------------------------------------

  class Library {
    var books: seq<Entry>
    var members: seq<Member>
    var loanedBooksCount: int32
    var totalLoansCount: int32

    constructor ()
      ensures books == [] && members == []
      ensures loanedBooksCount == 0 && totalLoansCount == 0
    {
      books := [];
      members := [];
      loanedBooksCount := 0;
      totalLoansCount := 0;
    }

    method AddBook(book: Entry)
      modifies this`books
      ensures books == old(books) + [book]
    {
      books := books + [book];
    }

    method RemoveBook(book: Entry)
      modifies this`books
      ensures books == RemoveEqual(old(books), book)
    {
      books := RemoveEqual(books, book);
    }

    method AddMember(member: Member)
      modifies this`members
      ensures members == old(members) + [member]
    {
      members := members + [member];
    }

    method RemoveMember(member: Member)
      modifies this`members
      ensures members == RemoveFirst(old(members), member)
    {
      members := RemoveFirst(members, member);
    }

    /** A new loan: one more book out, one more loan ever made. */
    method IncrementLoanedBooks()
      modifies this`loanedBooksCount, this`totalLoansCount
      ensures loanedBooksCount == Succ(old(loanedBooksCount))
      ensures totalLoansCount == Succ(old(totalLoansCount))
    {
      loanedBooksCount := Succ(loanedBooksCount);
      totalLoansCount := Succ(totalLoansCount);
    }

    /** A loan ended: one fewer book out, with no floor; the lifetime count stays. */
    method DecrementLoanedBooks()
      modifies this`loanedBooksCount
      ensures loanedBooksCount == Pred(old(loanedBooksCount))
    {
      loanedBooksCount := Pred(loanedBooksCount);
    }

    /** The copies of all books, summed with Java `int` arithmetic. */
    method CountTotalBooks() returns (total: int32)
      ensures total == Wrap(TotalCopies(books))
    {
      total := 0;
      for i := 0 to |books|
        invariant total == Wrap(TotalCopies(books[..i]))
      {
        assert books[..i + 1][..i] == books[..i];
        WrapAdd(TotalCopies(books[..i]), books[i].Quantity());
        total := Wrap(total + books[i].Quantity());
      }
      assert books[..|books|] == books;
    }

    /**
     * The available copies of all books, summed with Java `int` arithmetic.
     * With no borrowed counter in Book, an entry's available copies are its
     * copy counter, so this is the same total as `CountTotalBooks`.
     */
    method CountAvailableBooks() returns (available: int32)
      ensures available == Wrap(TotalCopies(books))
    {
      available := 0;
      for i := 0 to |books|
        invariant available == Wrap(TotalCopies(books[..i]))
      {
        assert books[..i + 1][..i] == books[..i];
        WrapAdd(TotalCopies(books[..i]), books[i].AvailableQuantity());
        available := Wrap(available + books[i].AvailableQuantity());
      }
      assert books[..|books|] == books;
    }

    method GetLibrarySummary() returns (summary: string)
      ensures summary == SummaryText(Wrap(TotalCopies(books)), Wrap(TotalCopies(books)),
                                     loanedBooksCount, |members|, totalLoansCount)
    {
      var total := CountTotalBooks();
      // the call below leaves every allocated object alone, so the first total still holds
      assert forall o | o in BooksIn(books) :: allocated(o);
      var available := CountAvailableBooks();
      summary := Line("Total Books: ", total) +
        (Line("Available Books: ", available) +
        (Line("Loaned Books: ", loanedBooksCount) +
        (Line("Total Members: ", |members|) +
         Line("Total Loans: ", totalLoansCount))));
    }
  }
}
