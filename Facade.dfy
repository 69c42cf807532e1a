/**
 * The facade (`LibraryFacade`): the entry point the application and its
 * tests use. It shares the catalog with its lending service, re-checks that
 * the book or member exists before delegating, and adds an exact-title lookup
 * and a rating query of its own.
 *
 * The existence checks evaluate `FindBook` and `FindMember` directly: they
 * are the values the lending service's `findBookByTitle` and
 * `findMemberById` are proved to return, and neither lookup changes anything.
 */
module Facade {
  import opened Numerics
  import opened Wrappers
  import opened Lists
  import opened Entities
  import opened Catalog
  import opened Lending

  /** The books every new facade adds: title, author and year; each comes with 5 copies. */
  const SampleBooks: seq<(string, string, int32)> := [
    ("The Catcher in the Rye", "J.D. Salinger", 1951),
    ("To Kill a Mockingbird", "Harper Lee", 1960),
    ("1984", "George Orwell", 1949),
    ("Pride and Prejudice", "Jane Austen", 1813),
    ("The Great Gatsby", "F. Scott Fitzgerald", 1925)
  ]

  const SampleQuantity: int32 := 5

  /** What `getBookRating` reports for a book that has not been rated: the double 0.0. */
  const Unrated: Rating := Rating("0.0")

  /** The position of the entry the facade's `findBookByTitle` returns: the first whose title is exactly `title`. */
  function FindExact(books: seq<Entry>, title: string): (r: Option<nat>)
    reads RatedIn(books)
    ensures r.Some? ==> r.value < |books| && books[r.value].Title() == title
    ensures forall j :: 0 <= j < |books| && (r.Some? ==> j < r.value) ==> books[j].Title() != title
  {
    if books == [] then None
    else if books[0].Title() == title then Some(0)
    else match FindExact(books[1..], title)
      case None => None
      case Some(i) => Some(i + 1)
  }

  /**
   * The exact lookup is the stricter one: whatever it finds, the lending
   * service's substring lookup also finds, at the same position or earlier.
   */
  lemma ExactFoundBySubstring(books: seq<Entry>, title: string)
    requires FindExact(books, title).Some?
    ensures FindBook(books, title).Some?
    ensures FindBook(books, title).value <= FindExact(books, title).value
  {
    var i := FindExact(books, title).value;
    RatedClauseSubsumed(books[i], title);
    assert OccursAt(books[i].Title(), title, 0);
    assert TitleMatches(books[i], title);
  }

  class LibraryFacade {
    /** The shared catalog (in the source, the process-wide one). */
    const library: Library
    /** The lending service over the same catalog. */
    const librarian: Librarian

    /** The facade and its lending service work on one and the same catalog. */
    ghost predicate Valid()
      reads this, librarian
    {
      librarian.library == library
    }

    /** Wires the facade to the shared catalog and appends the five sample books to it. */
    constructor (library: Library)
      modifies library`books
      ensures Valid() && this.library == library && fresh(librarian)
      ensures |library.books| == |old(library.books)| + |SampleBooks|
      ensures library.books[..|old(library.books)|] == old(library.books)
      ensures forall k :: 0 <= k < |SampleBooks| ==>
        var e := library.books[|old(library.books)| + k];
        fresh(e.Base()) && IsNewBook(e, SampleBooks[k].0, SampleBooks[k].1, SampleBooks[k].2, SampleQuantity)
    {
      this.library := library;
      librarian := new Librarian(library);
      new;
      AddSampleBooks();
    }

    /** Appends the sample books in their fixed order. */
    method AddSampleBooks()
      requires Valid()
      modifies library`books
      ensures |library.books| == |old(library.books)| + |SampleBooks|
      ensures library.books[..|old(library.books)|] == old(library.books)
      ensures forall k :: 0 <= k < |SampleBooks| ==>
        var e := library.books[|old(library.books)| + k];
        fresh(e.Base()) && IsNewBook(e, SampleBooks[k].0, SampleBooks[k].1, SampleBooks[k].2, SampleQuantity)
    {
      ghost var n := |library.books|;
      for k := 0 to |SampleBooks|
        invariant |library.books| == n + k
        invariant library.books[..n] == old(library.books)
        invariant forall j :: 0 <= j < k ==>
          var e := library.books[n + j];
          fresh(e.Base()) && IsNewBook(e, SampleBooks[j].0, SampleBooks[j].1, SampleBooks[j].2, SampleQuantity)
      {
        ghost var before := library.books;
        AddBook(SampleBooks[k].0, SampleBooks[k].1, SampleBooks[k].2, SampleQuantity);
        assert forall j :: 0 <= j < n + k ==> library.books[j] == before[j];
      }
    }

    /** Appends a new book with these fields, exactly as the lending service does. */
    method AddBook(title: string, author: string, year: int32, quantity: int32)
      requires Valid()
      modifies library`books
      ensures |library.books| == |old(library.books)| + 1
      ensures library.books[..|old(library.books)|] == old(library.books)
      ensures var e := library.books[|library.books| - 1];
        fresh(e.Base()) && IsNewBook(e, title, author, year, quantity)
    {
      librarian.AddBook(title, author, year, quantity);
    }

    /** Removes the found entry; a missing title is reported before delegating. */
    method RemoveBook(title: string) returns (r: Outcome)
      requires Valid()
      modifies library`books
      ensures var i := old(FindBook(library.books, title));
        if i.None? then r == Fail(BookNotFound(title)) && library.books == old(library.books)
        else r == Pass && library.books == RemoveAt(old(library.books), i.value)
    {
      var book := FindBook(library.books, title);
      if book.Some? {
        r := librarian.RemoveBook(title);
      } else {
        r := Fail(BookNotFound(title));
      }
    }

    /** Adds a member; a taken id is reported before anything is created. */
    method AddMember(name: string, id: string) returns (r: Outcome)
      requires Valid()
      modifies library`members
      ensures old(FindMember(library.members, id)).Some? ==>
        r == Fail(IdTaken(id)) && library.members == old(library.members)
      ensures old(FindMember(library.members, id)).None? ==>
        && r == Pass
        && |library.members| == |old(library.members)| + 1
        && library.members[..|old(library.members)|] == old(library.members)
        && var m := library.members[|library.members| - 1];
           fresh(m) && m.name == name && m.id == id && m.loans == []
      ensures UniqueIds(old(library.members)) ==> UniqueIds(library.members)
    {
      var existing := FindMember(library.members, id);
      if existing.Some? {
        return Fail(IdTaken(id));
      }
      r := librarian.AddMember(name, id);
    }

    /** Removes the found member; a missing id is reported before delegating. */
    method RemoveMember(id: string) returns (r: Outcome)
      requires Valid()
      modifies library`members
      ensures var i := old(FindMember(library.members, id));
        if i.None? then r == Fail(MemberNotFound(id)) && library.members == old(library.members)
        else r == Pass && library.members == RemoveAt(old(library.members), i.value)
      ensures UniqueIds(old(library.members)) ==> UniqueIds(library.members)
    {
      var member := FindMember(library.members, id);
      if member.Some? {
        r := librarian.RemoveMember(id);
      } else {
        r := Fail(MemberNotFound(id));
      }
    }

    /** Lends a copy: the book and the member are checked here, availability by the lending service. */
    method LendBook(title: string, memberId: string, now: Timestamp) returns (r: Result<bool>)
      requires Valid()
      modifies library`loanedBooksCount, library`totalLoansCount
      modifies librarian.TargetBook(title), librarian.TargetMember(memberId)
      ensures old(librarian.LendCheck(title, memberId)).Fail? ==>
        && r == Failure(old(librarian.LendCheck(title, memberId)).message)
        && unchanged(library)
        && unchanged(old(librarian.TargetBook(title)))
        && unchanged(old(librarian.TargetMember(memberId)))
      ensures old(librarian.LendCheck(title, memberId)).Pass? ==>
        var e := old(librarian.Found(title)).value;
        var b := e.Base();
        var m := old(librarian.FoundMember(memberId)).value;
        && r == Success(true)
        && b.quantity == old(b.quantity) - 1
        && |m.loans| == |old(m.loans)| + 1
        && m.loans[..|old(m.loans)|] == old(m.loans)
        && (var loan := m.loans[|m.loans| - 1];
            && fresh(loan) && loan.book == e && loan.member == m
            && loan.loanDate == now && loan.returnDate == None
            && b.loanHistory == old(b.loanHistory) + [loan])
        && library.loanedBooksCount == Succ(old(library.loanedBooksCount))
        && library.totalLoansCount == Succ(old(library.totalLoansCount))
    {
      var book := FindBook(library.books, title);
      var member := FindMember(library.members, memberId);
      if book.Some? && member.Some? {
        r := librarian.LendBook(title, memberId, now);
      } else if book.None? {
        r := Failure(BookNotFound(title));
      } else {
        r := Failure(MemberNotFound(memberId));
      }
    }

    /** Takes a copy back: the book and the member are checked here, then the lending service does the rest. */
    method ReturnBook(title: string, memberId: string) returns (r: Outcome)
      requires Valid()
      modifies library`loanedBooksCount, librarian.TargetBook(title), librarian.TargetMember(memberId)
      ensures r == old(librarian.ReturnCheck(title, memberId))
      ensures r.Fail? ==>
        && unchanged(library)
        && unchanged(old(librarian.TargetBook(title)))
        && unchanged(old(librarian.TargetMember(memberId)))
      ensures r.Pass? ==>
        var b := old(librarian.Found(title)).value.Base();
        var m := old(librarian.FoundMember(memberId)).value;
        var k := old(FirstLoanWithTitle(m.loans, title));
        && b.quantity == AfterReturn(old(b.quantity))
        && (k.None? ==>
             && m.loans == old(m.loans)
             && b.loanHistory == old(b.loanHistory)
             && library.loanedBooksCount == old(library.loanedBooksCount))
        && (k.Some? ==>
             && m.loans == RemoveAt(old(m.loans), k.value)
             && b.loanHistory == RemoveFirst(old(b.loanHistory), old(m.loans)[k.value])
             && library.loanedBooksCount == Pred(old(library.loanedBooksCount)))
    {
      var book := FindBook(library.books, title);
      var member := FindMember(library.members, memberId);
      if book.Some? && member.Some? {
        r := librarian.ReturnBook(title, memberId);
      } else if book.None? {
        r := Fail(BookNotFound(title));
      } else {
        r := Fail(MemberNotFound(memberId));
      }
    }

    /** The catalog summary, as the catalog builds it. */
    method GetLibrarySummary() returns (summary: string)
      ensures summary == SummaryText(Wrap(TotalCopies(library.books)), Wrap(TotalCopies(library.books)),
                                     library.loanedBooksCount, |library.members|, library.totalLoansCount)
    {
      summary := library.GetLibrarySummary();
    }

    /** The catalog's book list as it stands. */
    method GetAllBooks() returns (books: seq<Entry>)
      ensures books == library.books
    {
      books := library.books;
    }

    /** Rates the found book; a missing title is reported before delegating. */
    method RateBook(title: string, rating: Rating) returns (r: Outcome)
      requires Valid()
      modifies library`books, librarian.TargetRated(title)
      ensures var i := old(FindBook(library.books, title));
        && (i.None? ==> r == Fail(BookNotFound(title)) && library.books == old(library.books))
        && (i.Some? && old(library.books[i.value]).Rated? ==>
             var rb := old(library.books[i.value]).rated;
             r == Pass && library.books == old(library.books) && rb.rating == rating)
        && (i.Some? && old(library.books[i.value]).Plain? ==>
             && r == Pass
             && |library.books| == |old(library.books)|
             && library.books[..|library.books| - 1] == RemoveAt(old(library.books), i.value)
             && var w := library.books[|library.books| - 1];
                && w.Rated? && fresh(w.rated)
                && w.rated.base.decorated == old(library.books[i.value]).book
                && w.rated.rating == rating)
    {
      var book := FindBook(library.books, title);
      if book.Some? {
        r := librarian.RateBook(title, rating);
      } else {
        r := Fail(BookNotFound(title));
      }
    }

    /** The rating of the found book: its own for a rated book, 0.0 for a plain one. */
    method GetBookRating(title: string) returns (r: Result<Rating>)
      requires Valid()
      ensures var i := FindBook(library.books, title);
        && (i.None? ==> r == Failure(BookNotFound(title)))
        && (i.Some? && library.books[i.value].Plain? ==> r == Success(Unrated))
        && (i.Some? && library.books[i.value].Rated? ==> r == Success(library.books[i.value].rated.rating))
    {
      var book := librarian.FindBookByTitle(title);
      if book.None? {
        return Failure(BookNotFound(title));
      }
      if book.value.Rated? {
        r := Success(book.value.rated.rating);
      } else {
        r := Success(Unrated);
      }
    }

    /** The books of the member's loans; an unknown id is reported before delegating. */
    method GetUserLoans(userId: string) returns (r: Result<seq<Entry>>)
      requires Valid()
      ensures FindMember(library.members, userId).None? ==> r == Failure(MemberNotFound(userId))
      ensures FindMember(library.members, userId).Some? ==>
        var m := library.members[FindMember(library.members, userId).value];
        && r.Success?
        && |r.value| == |m.loans|
        && forall j :: 0 <= j < |m.loans| ==> r.value[j] == m.loans[j].book
    {
      var member := FindMember(library.members, userId);
      if member.Some? {
        r := librarian.GetUserLoans(userId);
      } else {
        r := Failure(MemberNotFound(userId));
      }
    }

    /** The first entry whose whole title is exactly `title`; a rated book answers only to its rated title. */
    method FindBookByTitle(title: string) returns (r: Result<Entry>)
      ensures var i := FindExact(library.books, title);
        && (i.None? ==> r == Failure(BookNotFound(title)))
        && (i.Some? ==> r == Success(library.books[i.value]))
    {
      var books := library.books;
      for k := 0 to |books|
        invariant forall j :: 0 <= j < k ==> books[j].Title() != title
      {
        if books[k].Title() == title {
          return Success(books[k]);
        }
      }
      return Failure(BookNotFound(title));
    }

    /** The lifetime loan count of the catalog. */
    method GetTotalLoans() returns (n: int32)
      ensures n == library.totalLoansCount
    {
      n := library.totalLoansCount;
    }

    /** Sets a copy count: existence is checked here first, so a missing title wins over an out-of-range quantity. */
    method UpdateBookQuantity(title: string, quantity: int32) returns (r: Outcome)
      requires Valid()
      modifies librarian.TargetBook(title)
      ensures r == if old(librarian.Found(title)).None? then Fail(BookNotFound(title))
                   else if quantity < 0 || quantity > 20 then Fail(QuantityOutOfRange(quantity))
                   else Pass
      ensures forall b :: b in old(librarian.TargetBook(title)) ==>
        b.loanHistory == old(b.loanHistory) && b.quantity == (if r.Pass? then quantity else old(b.quantity))
    {
      var book := FindBook(library.books, title);
      if book.Some? {
        r := librarian.UpdateBookQuantity(title, quantity);
      } else {
        r := Fail(BookNotFound(title));
      }
    }
  }
}
