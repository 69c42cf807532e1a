/**
 * The lending service (`Librarian`): the validated operations on the catalog.
 *
 * Every operation looks its book up by title (first entry, in list order,
 * whose title contains the query) and its member by id (first exact match),
 * then either fails with a `BookStateException` message or changes the
 * catalog, the book, the member and the counters. Nothing is mutated before
 * the checks that can fail.
 */
module Lending {
  import opened Numerics
  import opened Wrappers
  import opened Lists
  import opened Entities
  import opened Catalog

  // ---------------------------------------------------------------------------
  // Error messages
  // ---------------------------------------------------------------------------

  function BookNotFound(title: string): string { "Book not found: " + title }
  function MemberNotFound(id: string): string { "Member not found: " + id }
  function IdTaken(id: string): string { "ID already taken: " + id }
  function NoCopies(title: string): string { "No available copies of the book: " + title }
  function QuantityOutOfRange(quantity: int): string { "Quantity must be between 0 and 20: " + Decimal(quantity) }

  // ---------------------------------------------------------------------------
  // Lookups
  // ---------------------------------------------------------------------------

  /** The query occurs in the text starting at position `i`. */
  predicate OccursAt(text: string, query: string, i: int)
  {
    0 <= i <= |text| - |query| && text[i..i + |query|] == query
  }

  /** Java `text.contains(query)`: the query occurs in the text as a contiguous part. */
  predicate Contains(text: string, query: string)
  {
    exists i | 0 <= i <= |text| - |query| :: OccursAt(text, query, i)
  }

  /** The test `findBookByTitle` applies to each entry. */
  predicate TitleMatches(e: Entry, query: string)
    reads e.Footprint()
  {
    Contains(e.Title(), query) || (e.Rated? && e.Title() == query)
  }

  /** The exact-title clause for rated books adds nothing: an equal title also contains the query. */
  lemma RatedClauseSubsumed(e: Entry, query: string)
    ensures TitleMatches(e, query) <==> Contains(e.Title(), query)
  {
    if e.Title() == query {
      assert OccursAt(e.Title(), query, 0);
    }
  }

  /** The empty query is contained in every title. */
  lemma EmptyQueryMatches(e: Entry)
    ensures TitleMatches(e, "")
  {
    assert OccursAt(e.Title(), "", 0);
  }

  /** Rating keeps a book findable: every query found in the plain title is found in the rated title. */
  lemma RatedTitleStillMatches(r: RatedBook, query: string)
    requires Contains(r.base.decorated.title, query)
    ensures TitleMatches(Rated(r), query)
  {
    var t := r.base.decorated.title;
    var i :| 0 <= i <= |t| - |query| && OccursAt(t, query, i);
    assert r.Title()[..|t|] == t;
    assert r.Title()[i..i + |query|] == r.Title()[..|t|][i..i + |query|];
    assert OccursAt(r.Title(), query, i);
  }

  /** The position of the entry `findBookByTitle` returns: the first whose title matches. */
  function FindBook(books: seq<Entry>, title: string): (r: Option<nat>)
    reads RatedIn(books)
    ensures r.Some? ==> r.value < |books| && TitleMatches(books[r.value], title)
    ensures forall j :: 0 <= j < |books| && (r.Some? ==> j < r.value) ==> !TitleMatches(books[j], title)
  {
    if books == [] then None
    else if TitleMatches(books[0], title) then Some(0)
    else match FindBook(books[1..], title)
      case None => None
      case Some(i) => Some(i + 1)
  }

  /** The catalog after a plain entry at `i` is replaced by a wrapper appended at the end. */
  function MovedToEnd(books: seq<Entry>, i: nat, w: RatedBook): (after: seq<Entry>)
    requires i < |books|
    ensures |after| == |books| && after[|books| - 1] == Rated(w)
    ensures forall j :: 0 <= j < i ==> after[j] == books[j]
    ensures forall j :: i <= j < |books| - 1 ==> after[j] == books[j + 1]
  {
    RemoveAt(books, i) + [Rated(w)]
  }

  /** The wrapper of a matching plain entry matches too. */
  lemma WrapperStillMatches(e: Entry, title: string, w: RatedBook)
    requires e.Plain? && w.base.decorated == e.book && TitleMatches(e, title)
    ensures TitleMatches(Rated(w), title)
  {
    RatedClauseSubsumed(e, title);
    RatedTitleStillMatches(w, title);
  }

  /** With no match before `i` and none after it, nothing before the end of the new list matches. */
  lemma NoMatchBeforeEnd(books: seq<Entry>, i: nat, title: string, w: RatedBook)
    requires i < |books|
    requires forall j :: 0 <= j < |books| && j != i ==> !TitleMatches(books[j], title)
    ensures forall j :: 0 <= j < |books| - 1 ==> !TitleMatches(MovedToEnd(books, i, w)[j], title)
  {
    var after := MovedToEnd(books, i, w);
    forall j | 0 <= j < |books| - 1
      ensures !TitleMatches(after[j], title)
    {
      if j >= i {
        assert after[j] == books[j + 1];
      }
    }
  }

  /** When nothing after the rated entry matches, the lookup finds its wrapper at the end. */
  lemma WrapperFoundAtEnd(books: seq<Entry>, i: nat, title: string, w: RatedBook)
    requires FindBook(books, title) == Some(i)
    requires books[i].Plain? && w.base.decorated == books[i].book
    requires forall j :: i < j < |books| ==> !TitleMatches(books[j], title)
    ensures FindBook(MovedToEnd(books, i, w), title) == Some(|books| - 1)
  {
    var after := MovedToEnd(books, i, w);
    WrapperStillMatches(books[i], title, w);
    assert forall j :: 0 <= j < |books| && j != i ==> !TitleMatches(books[j], title);
    NoMatchBeforeEnd(books, i, title, w);
    assert after[|books| - 1] == Rated(w);
    FindBookAt(after, title, |books| - 1);
  }

  /** A match after the rated entry is found before the wrapper, which now sits at the end. */
  lemma LaterMatchFoundFirst(books: seq<Entry>, title: string, w: RatedBook, j: nat)
    requires FindBook(books, title).Some?
    requires FindBook(books, title).value < j < |books| && TitleMatches(books[j], title)
    ensures var r := FindBook(MovedToEnd(books, FindBook(books, title).value, w), title);
      r.Some? && r.value < j
  {
    var after := MovedToEnd(books, FindBook(books, title).value, w);
    assert after[j - 1] == books[j];
  }

  /**
   * Rating a plain entry takes it out and appends its wrapper at the end. The
   * wrapper still matches the query, but the lookup reaches it again exactly
   * when no entry after the old position matches; otherwise a later book is
   * found first.
   */
  lemma RatedEntryFoundAgainIff(books: seq<Entry>, title: string, w: RatedBook)
    requires FindBook(books, title).Some?
    requires books[FindBook(books, title).value].Plain?
    requires w.base.decorated == books[FindBook(books, title).value].book
    ensures var i := FindBook(books, title).value;
      FindBook(MovedToEnd(books, i, w), title) == Some(|books| - 1) <==>
      forall j :: i < j < |books| ==> !TitleMatches(books[j], title)
  {
    var i := FindBook(books, title).value;
    if forall j :: i < j < |books| ==> !TitleMatches(books[j], title) {
      WrapperFoundAtEnd(books, i, title, w);
    } else {
      var j :| i < j < |books| && TitleMatches(books[j], title);
      LaterMatchFoundFirst(books, title, w, j);
    }
  }

  /** The first matching position is what the lookup returns. */
  lemma FindBookAt(books: seq<Entry>, title: string, k: nat)
    requires k < |books| && TitleMatches(books[k], title)
    requires forall j :: 0 <= j < k ==> !TitleMatches(books[j], title)
    ensures FindBook(books, title) == Some(k)
  {
  }

  /** The position of the member `findMemberById` returns: the first with exactly this id. */
  function FindMember(members: seq<Member>, id: string): (r: Option<nat>)
    ensures r.Some? ==> r.value < |members| && members[r.value].id == id
    ensures forall j :: 0 <= j < |members| && (r.Some? ==> j < r.value) ==> members[j].id != id
  {
    if members == [] then None
    else if members[0].id == id then Some(0)
    else match FindMember(members[1..], id)
      case None => None
      case Some(i) => Some(i + 1)
  }

  /** No two members share an id. */
  predicate UniqueIds(members: seq<Member>)
  {
    forall i, j :: 0 <= i < j < |members| ==> members[i].id != members[j].id
  }

  /** Appending a member whose id is not taken keeps ids unique. */
  lemma AddKeepsIdsUnique(members: seq<Member>, m: Member)
    requires UniqueIds(members) && FindMember(members, m.id).None?
    ensures UniqueIds(members + [m])
  {
    var s := members + [m];
    forall i, j | 0 <= i < j < |s|
      ensures s[i].id != s[j].id
    {
      if j == |members| {
        assert s[i] == members[i];
      }
    }
  }

  /** Taking a member out keeps ids unique. */
  lemma RemoveKeepsIdsUnique(members: seq<Member>, k: nat)
    requires UniqueIds(members) && k < |members|
    ensures UniqueIds(RemoveAt(members, k))
  {
    var s := RemoveAt(members, k);
    forall i, j | 0 <= i < j < |s|
      ensures s[i].id != s[j].id
    {
      var i' := if i < k then i else i + 1;
      var j' := if j < k then j else j + 1;
      assert s[i] == members[i'] && s[j] == members[j'];
    }
  }

  /** With unique ids, the lookup finds the one member with that id, and after its removal the id is free. */
  lemma UniqueIdLookup(members: seq<Member>, k: nat)
    requires UniqueIds(members) && k < |members|
    ensures FindMember(members, members[k].id) == Some(k)
    ensures FindMember(RemoveAt(members, k), members[k].id).None?
  {
    var s := RemoveAt(members, k);
    forall j | 0 <= j < |s|
      ensures s[j].id != members[k].id
    {
      var j' := if j < k then j else j + 1;
      assert s[j] == members[j'];
    }
  }

  /** The first match sits where no earlier entry has its title, so removing it by `equals` removes that position. */
  lemma FoundIsFirstWithItsTitle(books: seq<Entry>, title: string)
    requires FindBook(books, title).Some?
    ensures var i := FindBook(books, title).value;
      forall j :: 0 <= j < i ==> books[j].Title() != books[i].Title()
  {
    var i := FindBook(books, title).value;
    RatedClauseSubsumed(books[i], title);
    forall j | 0 <= j < i
      ensures books[j].Title() != books[i].Title()
    {
      RatedClauseSubsumed(books[j], title);
    }
  }

  /** The first loan with a title is not held earlier in the list, so removing it by identity removes that position. */
  lemma FoundLoanIsFirstOccurrence(loans: seq<Loan>, title: string)
    requires FirstLoanWithTitle(loans, title).Some?
    ensures var k := FirstLoanWithTitle(loans, title).value;
      loans[k] !in loans[..k] && RemoveFirst(loans, loans[k]) == RemoveAt(loans, k)
  {
    var k := FirstLoanWithTitle(loans, title).value;
    forall j | 0 <= j < k
      ensures loans[..k][j] != loans[k]
    {
      assert loans[j].book.Title() != loans[k].book.Title();
    }
    RemoveFirstAt(loans, k);
  }

  /** A freshly added book as `new Book(title, author, year, quantity)` creates it. */
  ghost predicate IsNewBook(e: Entry, title: string, author: string, year: int32, quantity: int32)
    reads e.Base()
  {
    e.Plain? && e.book.title == title && e.book.author == author && e.book.year == year &&
    e.book.quantity == quantity && e.book.loanHistory == []
  }

  // ---------------------------------------------------------------------------
  // Librarian
  // ---------------------------------------------------------------------------

  class Librarian {
    /** The catalog the librarian works on (in the source, the process-wide one). */
    const library: Library

    constructor (library: Library)
      ensures this.library == library
    {
      this.library := library;
    }

    /** The entry `findBookByTitle(title)` returns. */
    ghost function Found(title: string): Option<Entry>
      reads library, RatedIn(library.books)
    {
      match FindBook(library.books, title)
      case None => None
      case Some(i) => Some(library.books[i])
    }

    /** The member `findMemberById(id)` returns. */
    ghost function FoundMember(id: string): Option<Member>
      reads library
    {
      match FindMember(library.members, id)
      case None => None
      case Some(i) => Some(library.members[i])
    }

    /** The Book object an operation on `title` may change. */
    ghost function TargetBook(title: string): set<Book>
      reads library, RatedIn(library.books)
    {
      if Found(title).Some? then {Found(title).value.Base()} else {}
    }

    /** The Member object an operation on `id` may change. */
    ghost function TargetMember(id: string): set<Member>
      reads library
    {
      if FoundMember(id).Some? then {FoundMember(id).value} else {}
    }

    /** The rating wrapper `rateBook(title, _)` may change. */
    ghost function TargetRated(title: string): set<RatedBook>
      reads library, RatedIn(library.books)
    {
      if Found(title).Some? && Found(title).value.Rated? then {Found(title).value.rated} else {}
    }

    /** The checks of `lendBook`, in the order it makes them. */
    ghost function LendCheck(title: string, memberId: string): Outcome
      reads library, RatedIn(library.books), BooksIn(library.books)
    {
      if Found(title).None? then Fail(BookNotFound(title))
      else if FoundMember(memberId).None? then Fail(MemberNotFound(memberId))
      else if !Found(title).value.IsAvailable() then Fail(NoCopies(title))
      else Pass
    }

    /** The checks of `returnBook`, in the order it makes them. */
    ghost function ReturnCheck(title: string, memberId: string): Outcome
      reads library, RatedIn(library.books)
    {
      if Found(title).None? then Fail(BookNotFound(title))
      else if FoundMember(memberId).None? then Fail(MemberNotFound(memberId))
      else Pass
    }

    /** First entry, in catalog order, whose title contains `title`. */
    method FindBookByTitle(title: string) returns (r: Option<Entry>)
      ensures r.None? <==> FindBook(library.books, title).None?
      ensures r.Some? ==> r.value == library.books[FindBook(library.books, title).value]
      ensures r.Some? ==> r.value in library.books && Contains(r.value.Title(), title)
    {
      var books := library.books;
      for i := 0 to |books|
        invariant forall j :: 0 <= j < i ==> !TitleMatches(books[j], title)
      {
        if Contains(books[i].Title(), title) || (books[i].Rated? && books[i].Title() == title) {
          RatedClauseSubsumed(books[i], title);
          return Some(books[i]);
        }
      }
      return None;
    }

    /** First member, in roster order, whose id equals `id`. */
    method FindMemberById(id: string) returns (r: Option<Member>)
      ensures r.None? <==> FindMember(library.members, id).None?
      ensures r.Some? ==> r.value == library.members[FindMember(library.members, id).value]
      ensures r.Some? ==> r.value in library.members && r.value.id == id
    {
      var members := library.members;
      for i := 0 to |members|
        invariant forall j :: 0 <= j < i ==> members[j].id != id
      {
        if members[i].id == id {
          return Some(members[i]);
        }
      }
      return None;
    }

    /** Appends a new book; the quantity is not validated and duplicate titles are allowed. */
    method AddBook(title: string, author: string, year: int32, quantity: int32)
      modifies library`books
      ensures |library.books| == |old(library.books)| + 1
      ensures library.books[..|old(library.books)|] == old(library.books)
      ensures var e := library.books[|library.books| - 1];
        fresh(e.Base()) && IsNewBook(e, title, author, year, quantity)
    {
      var book := new Book(title, author, year, quantity);
      library.AddBook(Plain(book));
    }

    /** Removes the found entry, whatever its outstanding loans. */
    method RemoveBook(title: string) returns (r: Outcome)
      modifies library`books
      ensures var i := old(FindBook(library.books, title));
        if i.None? then r == Fail(BookNotFound(title)) && library.books == old(library.books)
        else r == Pass && library.books == RemoveAt(old(library.books), i.value)
    {
      var book := FindBookByTitle(title);
      // the lookups allocate nothing and change nothing, so facts about the catalog before them still hold
      assert forall o | o in RatedIn(library.books) :: allocated(o);
      assert forall o | o in BooksIn(library.books) :: allocated(o);
      assert FindBook(library.books, title) == old(FindBook(library.books, title));
      if book.Some? {
        ghost var books, i := library.books, FindBook(library.books, title).value;
        assert books == old(library.books) && book.value == books[i];
        FoundIsFirstWithItsTitle(books, title);
        RemoveEqualAt(books, i);
        assert RemoveEqual(books, book.value) == RemoveAt(books, i);
        library.RemoveBook(book.value);
        r := Pass;
      } else {
        r := Fail(BookNotFound(title));
      }
    }

    /** Sets the copy count of the found book: the range check comes first, then the lookup. */
    method UpdateBookQuantity(title: string, quantity: int32) returns (r: Outcome)
      modifies TargetBook(title)
      ensures r == if quantity < 0 || quantity > 20 then Fail(QuantityOutOfRange(quantity))
                   else if old(Found(title)).None? then Fail(BookNotFound(title))
                   else Pass
      ensures forall b :: b in old(TargetBook(title)) ==>
        b.loanHistory == old(b.loanHistory) && b.quantity == (if r.Pass? then quantity else old(b.quantity))
    {
      if quantity < 0 || quantity > 20 {
        return Fail(QuantityOutOfRange(quantity));
      }
      var book := FindBookByTitle(title);
      // the lookups allocate nothing and change nothing, so facts about the catalog before them still hold
      assert forall o | o in RatedIn(library.books) :: allocated(o);
      assert forall o | o in BooksIn(library.books) :: allocated(o);
      if book.Some? {
        book.value.SetQuantity(quantity);
        r := Pass;
      } else {
        r := Fail(BookNotFound(title));
      }
    }

    /** Appends a new member unless the id is taken. */
    method AddMember(name: string, id: string) returns (r: Outcome)
      modifies library`members
      ensures old(FindMember(library.members, id)).Some? ==>
        r == Fail(IdTaken(id)) && library.members == old(library.members)
      ensures old(FindMember(library.members, id)).None? ==>
        && r == Pass
        && |library.members| == |old(library.members)| + 1
        && library.members[..|old(library.members)|] == old(library.members)
        && var m := library.members[|library.members| - 1];
           fresh(m) && m.name == name && m.id == id && m.loans == []
      ensures UniqueIds(old(library.members)) ==> UniqueIds(library.members)
    {
      var existing := FindMemberById(id);
      if existing.Some? {
        return Fail(IdTaken(id));
      }
      var member := new Member(name, id);
      if UniqueIds(library.members) {
        AddKeepsIdsUnique(library.members, member);
      }
      library.AddMember(member);
      assert library.members[..|old(library.members)|] == old(library.members);
      r := Pass;
    }

    /** Removes the found member, whatever loans the member holds. */
    method RemoveMember(id: string) returns (r: Outcome)
      modifies library`members
      ensures var i := old(FindMember(library.members, id));
        if i.None? then r == Fail(MemberNotFound(id)) && library.members == old(library.members)
        else r == Pass && library.members == RemoveAt(old(library.members), i.value)
      ensures UniqueIds(old(library.members)) ==> UniqueIds(library.members)
    {
      var member := FindMemberById(id);
      if member.Some? {
        var k := FindMember(library.members, id).value;
        assert library.members[k] !in library.members[..k];
        RemoveFirstAt(library.members, k);
        if UniqueIds(library.members) {
          RemoveKeepsIdsUnique(library.members, k);
        }
        library.RemoveMember(member.value);
        r := Pass;
      } else {
        r := Fail(MemberNotFound(id));
      }
    }

    /**
     * Lends one copy of the found book to the found member. All checks come
     * before any change; on success the copy count drops by one, one new
     * loan is appended to both the book's history and the member's loans, and
     * both loan counters go up.
     */
    method LendBook(title: string, memberId: string, now: Timestamp) returns (r: Result<bool>)
      modifies library`loanedBooksCount, library`totalLoansCount, TargetBook(title), TargetMember(memberId)
      ensures old(LendCheck(title, memberId)).Fail? ==>
        && r == Failure(old(LendCheck(title, memberId)).message)
        && unchanged(library)
        && unchanged(old(TargetBook(title)))
        && unchanged(old(TargetMember(memberId)))
      ensures old(LendCheck(title, memberId)).Pass? ==>
        var e := old(Found(title)).value;
        var b := e.Base();
        var m := old(FoundMember(memberId)).value;
        && r == Success(true)
        && b.quantity == old(b.quantity) - 1
        && |m.loans| == |old(m.loans)| + 1
        && m.loans[..|old(m.loans)|] == old(m.loans)
        && (var loan := m.loans[|m.loans| - 1];
            && fresh(loan) && loan.book == e && loan.member == m
            && loan.loanDate == now && loan.returnDate == None
            && b.loanHistory == old(b.loanHistory) + [loan])
        && library.loanedBooksCount == Succ(old(library.loanedBooksCount))
        && library.totalLoansCount == Succ(old(library.totalLoansCount))
    {
      var book := FindBookByTitle(title);
      var member := FindMemberById(memberId);
      // the lookups allocate nothing and change nothing, so facts about the catalog before them still hold
      assert forall o | o in RatedIn(library.books) :: allocated(o);
      assert forall o | o in BooksIn(library.books) :: allocated(o);
      assert forall o | o in library.members :: allocated(o);
      if book.Some? && member.Some? && book.value.IsAvailable() {
        ghost var m, b := member.value, book.value.Base();
        assert m.loans == old(m.loans) && b.loanHistory == old(b.loanHistory) && b.quantity == old(b.quantity);
        Checkout(book.value, member.value, now);
        r := Success(true);
      } else if book.None? {
        r := Failure(BookNotFound(title));
      } else if member.None? {
        r := Failure(MemberNotFound(memberId));
      } else {
        r := Failure(NoCopies(title));
      }
    }

    /**
     * Takes a copy back. After both lookups succeed the copy count always goes
     * up; only when the member holds a loan whose book's title equals `title`
     * exactly is that loan removed from the member and from the found book's
     * history, and the loaned counter decremented. No matching loan is not an
     * error.
     */
    method ReturnBook(title: string, memberId: string) returns (r: Outcome)
      modifies library`loanedBooksCount, TargetBook(title), TargetMember(memberId)
      ensures r == old(ReturnCheck(title, memberId))
      ensures r.Fail? ==>
        && unchanged(library)
        && unchanged(old(TargetBook(title)))
        && unchanged(old(TargetMember(memberId)))
      ensures r.Pass? ==>
        var b := old(Found(title)).value.Base();
        var m := old(FoundMember(memberId)).value;
        var k := old(FirstLoanWithTitle(m.loans, title));
        && b.quantity == AfterReturn(old(b.quantity))
        && (k.None? ==>
             && m.loans == old(m.loans)
             && b.loanHistory == old(b.loanHistory)
             && library.loanedBooksCount == old(library.loanedBooksCount))
        && (k.Some? ==>
             && m.loans == RemoveAt(old(m.loans), k.value)
             && b.loanHistory == RemoveFirst(old(b.loanHistory), old(m.loans)[k.value])
             && library.loanedBooksCount == Pred(old(library.loanedBooksCount)))
    {
      var book := FindBookByTitle(title);
      var member := FindMemberById(memberId);
      // the lookups allocate nothing and change nothing, so facts about the catalog before them still hold
      assert forall o | o in RatedIn(library.books) :: allocated(o);
      assert forall o | o in BooksIn(library.books) :: allocated(o);
      assert forall o | o in library.members :: allocated(o);
      assert book == Found(title) && member == FoundMember(memberId);
      if book.Some? && member.Some? {
        ghost var m, b := member.value, book.value.Base();
        assert m.loans == old(m.loans) && b.loanHistory == old(b.loanHistory) && b.quantity == old(b.quantity);
        assert forall o | o in LoanTitleFrame(m.loans) :: allocated(o);
        assert FirstLoanWithTitle(m.loans, title) == old(FirstLoanWithTitle(m.loans, title));
        CheckIn(book.value, member.value, title);
        r := Pass;
      } else if book.None? {
        r := Fail(BookNotFound(title));
      } else {
        r := Fail(MemberNotFound(memberId));
      }
    }

    /** The changes of a successful `lendBook`: one copy out, one new loan recorded on both sides, both counters up. */
    method Checkout(e: Entry, m: Member, now: Timestamp)
      requires e.IsAvailable()
      modifies e.Base()`quantity, e.Base()`loanHistory, m`loans, library`loanedBooksCount, library`totalLoansCount
      ensures e.Base().quantity == old(e.Base().quantity) - 1
      ensures |m.loans| == |old(m.loans)| + 1
      ensures m.loans[..|old(m.loans)|] == old(m.loans)
      ensures var loan := m.loans[|m.loans| - 1];
        && fresh(loan) && loan.book == e && loan.member == m
        && loan.loanDate == now && loan.returnDate == None
        && e.Base().loanHistory == old(e.Base().loanHistory) + [loan]
      ensures library.loanedBooksCount == Succ(old(library.loanedBooksCount))
      ensures library.totalLoansCount == Succ(old(library.totalLoansCount))
    {
      e.LendCopy();
      var loan := new Loan(e, m, now);
      e.AddLoan(loan);
      m.AddLoan(loan);
      library.IncrementLoanedBooks();
      assert m.loans[..|old(m.loans)|] == old(m.loans);
    }

    /**
     * The changes of `returnBook` once both lookups succeed: one copy back,
     * and the member's first loan titled exactly `title`, if any, taken off
     * the member, off the given book's history and off the loaned counter.
     */
    method CheckIn(e: Entry, m: Member, title: string)
      modifies e.Base()`quantity, e.Base()`loanHistory, m`loans, library`loanedBooksCount
      ensures e.Base().quantity == AfterReturn(old(e.Base().quantity))
      ensures var k := old(FirstLoanWithTitle(m.loans, title));
        && (k.None? ==>
             && m.loans == old(m.loans)
             && e.Base().loanHistory == old(e.Base().loanHistory)
             && library.loanedBooksCount == old(library.loanedBooksCount))
        && (k.Some? ==>
             && m.loans == RemoveAt(old(m.loans), k.value)
             && e.Base().loanHistory == RemoveFirst(old(e.Base().loanHistory), old(m.loans)[k.value])
             && library.loanedBooksCount == Pred(old(library.loanedBooksCount)))
    {
      ghost var k := FirstLoanWithTitle(m.loans, title);
      if k.Some? {
        FoundLoanIsFirstOccurrence(m.loans, title);
      }
      ghost var loans := m.loans;
      assert forall o | o in LoanTitleFrame(loans) :: allocated(o);
      e.ReturnCopy();
      assert FirstLoanWithTitle(m.loans, title) == k;
      var loan := m.FindLoanByBook(title);
      assert loan == if k.Some? then Some(loans[k.value]) else None;
      if loan.Some? {
        m.RemoveLoan(loan.value);
        e.RemoveLoan(loan.value);
        library.DecrementLoanedBooks();
      }
    }

    /**
     * Rates the found book: a rated entry gets its rating replaced in place; a
     * plain one is taken out of the catalog and a new wrapper around the same
     * Book is appended at the end.
     */
    method RateBook(title: string, rating: Rating) returns (r: Outcome)
      modifies library`books, TargetRated(title)
      ensures var i := old(FindBook(library.books, title));
        && (i.None? ==> r == Fail(BookNotFound(title)) && library.books == old(library.books))
        && (i.Some? && old(library.books[i.value]).Rated? ==>
             var rb := old(library.books[i.value]).rated;
             r == Pass && library.books == old(library.books) && rb.rating == rating)
        && (i.Some? && old(library.books[i.value]).Plain? ==>
             && r == Pass
             && |library.books| == |old(library.books)|
             && library.books[..|library.books| - 1] == RemoveAt(old(library.books), i.value)
             && var w := library.books[|library.books| - 1];
                && w.Rated? && fresh(w.rated)
                && w.rated.base.decorated == old(library.books[i.value]).book
                && w.rated.rating == rating)
    {
      var book := FindBookByTitle(title);
      // the lookups allocate nothing and change nothing, so facts about the catalog before them still hold
      assert forall o | o in RatedIn(library.books) :: allocated(o);
      assert forall o | o in BooksIn(library.books) :: allocated(o);
      assert FindBook(library.books, title) == old(FindBook(library.books, title));
      if book.None? {
        return Fail(BookNotFound(title));
      }
      var e := book.value;
      if e.Rated? {
        e.rated.SetRating(rating);
      } else {
        var i := FindBook(library.books, title).value;
        FoundIsFirstWithItsTitle(library.books, title);
        RemoveEqualAt(library.books, i);
        var wrapper := new RatedBook(e.book, rating);
        library.RemoveBook(e);
        library.AddBook(Rated(wrapper));
      }
      r := Pass;
    }

    /** The books of the member's loans, one per loan, in loan order. */
    method GetUserLoans(userId: string) returns (r: Result<seq<Entry>>)
      ensures FindMember(library.members, userId).None? ==> r == Failure(MemberNotFound(userId))
      ensures FindMember(library.members, userId).Some? ==>
        var m := library.members[FindMember(library.members, userId).value];
        && r.Success?
        && |r.value| == |m.loans|
        && forall j :: 0 <= j < |m.loans| ==> r.value[j] == m.loans[j].book
    {
      var member := FindMemberById(userId);
      if member.None? {
        return Failure(MemberNotFound(userId));
      }
      var loans := member.value.loans;
      var books: seq<Entry> := [];
      for i := 0 to |loans|
        invariant |books| == i
        invariant forall j :: 0 <= j < i ==> books[j] == loans[j].book
      {
        books := books + [loans[i].book];
      }
      r := Success(books);
    }
  }
}
