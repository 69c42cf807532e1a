/**
 * Concrete runs of the lending layer, each on a catalog of its own, with the
 * outcome the model guarantees stated as a postcondition. They replay the
 * situations the repository's own test classes set up, and four that show
 * behaviour a reader might not expect.
 */
module Scenarios {
  import opened Numerics
  import opened Wrappers
  import opened Lists
  import opened Entities
  import opened Catalog
  import opened Lending
  import opened Facade

  /** The summary of five copies, one loaned book, one member and one loan ever made. */
  lemma SummaryFiveOne()
    ensures SummaryText(5, 5, 1, 1, 1) ==
      "Total Books: 5\n" + ("Available Books: 5\n" + ("Loaned Books: 1\n" + ("Total Members: 1\n" + "Total Loans: 1\n")))
  {
    DecimalDigit(5);
    DecimalDigit(1);
    assert Line("Total Books: ", 5) == "Total Books: 5\n";
    assert Line("Available Books: ", 5) == "Available Books: 5\n";
    assert Line("Loaned Books: ", 1) == "Loaned Books: 1\n";
    assert Line("Total Members: ", 1) == "Total Members: 1\n";
    assert Line("Total Loans: ", 1) == "Total Loans: 1\n";
  }

  /** One book of five copies, one member, one loan counted: the summary reads 5, 5, 1, 1, 1. */
  method SummaryAfterOneLoan() returns (summary: string)
    ensures summary ==
      "Total Books: 5\n" + ("Available Books: 5\n" + ("Loaned Books: 1\n" + ("Total Members: 1\n" + "Total Loans: 1\n")))
  {
    var library := new Library();
    var book := new Book("Book Title", "Author", 2000, 5);
    library.AddBook(Plain(book));
    var member := new Member("Member Name", "ID1");
    library.AddMember(member);
    library.IncrementLoanedBooks();
    assert library.books == [Plain(book)] && library.books[..0] == [];
    assert TotalCopies(library.books) == 5;
    summary := library.GetLibrarySummary();
    assert summary == SummaryText(5, 5, 1, 1, 1);
    SummaryFiveOne();
  }

  /** Five copies and three copies make eight, whether counted as copies or as available copies. */
  method TwoBooksTotal() returns (total: int32, available: int32)
    ensures total == 8 && available == 8
  {
    var library := new Library();
    var first := new Book("Book Title 1", "Author 1", 2000, 5);
    var second := new Book("Book Title 2", "Author 2", 2005, 3);
    library.AddBook(Plain(first));
    library.AddBook(Plain(second));
    var books := library.books;
    assert books == [Plain(first), Plain(second)];
    assert books[..1] == [Plain(first)] && books[..1][..0] == [];
    assert TotalCopies(books[..1]) == 5;
    assert TotalCopies(books) == 8;
    total := library.CountTotalBooks();
    assert forall o | o in BooksIn(books) :: allocated(o);
    assert library.books == books && first.quantity == 5 && second.quantity == 3;
    assert TotalCopies(books) == 8 by {
      assert TotalCopies(books[..1]) == 5;
    }
    available := library.CountAvailableBooks();
  }

  /** The only copy goes to the first member; the second request fails with the availability message. */
  method SecondLendWithoutCopies() returns (first: Result<bool>, second: Result<bool>)
    ensures first == Success(true)
    ensures second == Failure(NoCopies("The Catcher in the Rye"))
  {
    var library := new Library();
    var librarian := new Librarian(library);
    librarian.AddBook("The Catcher in the Rye", "J.D. Salinger", 1951, 1);
    var e := library.books[0];
    assert library.books == [e];
    assert OccursAt(e.Title(), "The Catcher in the Rye", 0);
    assert librarian.Found("The Catcher in the Rye") == Some(e);
    var _ := librarian.AddMember("John Doe", "123");
    var _ := librarian.AddMember("Jane Doe", "456");
    var john, jane := library.members[0], library.members[1];
    assert library.members == [john, jane];
    assert librarian.FoundMember("123") == Some(john);
    assert librarian.FoundMember("456") == Some(jane);
    first := librarian.LendBook("The Catcher in the Rye", "123", 0);
    assert library.books == [e] && e.Base().quantity == 0;
    assert library.members == [john, jane];
    assert librarian.Found("The Catcher in the Rye") == Some(e);
    assert librarian.FoundMember("456") == Some(jane);
    assert librarian.LendCheck("The Catcher in the Rye", "456") == Fail(NoCopies("The Catcher in the Rye"));
    second := librarian.LendBook("The Catcher in the Rye", "456", 1);
  }

  /** A second member with a taken id is refused and the roster keeps one member. */
  method DuplicateMemberId() returns (first: Outcome, second: Outcome, size: nat)
    ensures first == Pass
    ensures second == Fail(IdTaken("ID1"))
    ensures size == 1
  {
    var library := new Library();
    var librarian := new Librarian(library);
    first := librarian.AddMember("Member 1", "ID1");
    second := librarian.AddMember("Member 2", "ID1");
    size := |library.members|;
  }

  /**
   * Lending by a partial title finds "The Great Gatsby", but returning by the
   * same partial title matches no loan exactly: the copy comes back while the
   * loan stays with the member and the loaned counter stays at one.
   */
  method ReturnByPartialTitleKeepsLoan() returns (quantity: int32, held: nat, loaned: int32)
    ensures quantity == 5 && held == 1 && loaned == 1
  {
    var library := new Library();
    var librarian := new Librarian(library);
    librarian.AddBook("The Great Gatsby", "F. Scott Fitzgerald", 1925, 5);
    var _ := librarian.AddMember("Reader", "M1");
    var book := library.books[0];
    var reader := library.members[0];
    assert library.books == [book] && library.members == [reader];
    assert OccursAt(book.Title(), "Gatsby", 10);
    var lent := librarian.LendBook("Gatsby", "M1", 0);
    assert library.books == [book] && library.members == [reader];
    assert |reader.loans| == 1 && reader.loans[0].book.Title() == "The Great Gatsby";
    assert FirstLoanWithTitle(reader.loans, "Gatsby") == None;
    assert book.Base().quantity == 4 && library.loanedBooksCount == 1;
    var returned := librarian.ReturnBook("Gatsby", "M1");
    quantity := book.Base().quantity;
    held := |reader.loans|;
    loaned := library.loanedBooksCount;
  }

  /** A rated book is still found by its plain title, now under its rated title and with the new rating. */
  method RatedBookStillFound() returns (found: Option<Entry>)
    ensures found.Some? && found.value.Rated?
    ensures found.value.rated.rating == Rating("4.5")
    ensures found.value.Title() == "1984" + " (Rated: " + "4.5" + ")"
  {
    var library := new Library();
    var librarian := new Librarian(library);
    librarian.AddBook("1984", "George Orwell", 1949, 5);
    var e := library.books[0];
    assert library.books == [e] && e.Plain?;
    assert OccursAt(e.Title(), "1984", 0);
    assert FindBook(library.books, "1984") == Some(0);
    var _ := librarian.RateBook("1984", Rating("4.5"));
    var w := library.books[0];
    assert library.books == [w] && w.Rated? && w.rated.base.decorated == e.book;
    assert w.rated.rating == Rating("4.5");
    RatedTitleStillMatches(w.rated, "1984");
    assert FindBook(library.books, "1984") == Some(0);
    assert w.rated.base.decorated.title == "1984";
    found := librarian.FindBookByTitle("1984");
    assert found == Some(w);
  }
  /**
   * Rating "1984" moves its wrapper behind "1984 Revisited", so the same query
   * now finds the unrated sequel first.
   */
  method RatingMovesBehindLaterMatch() returns (found: Option<Entry>)
    ensures found.Some? && found.value.Plain?
    ensures found.value.Title() == "1984 Revisited"
  {
    var library := new Library();
    var librarian := new Librarian(library);
    librarian.AddBook("1984", "George Orwell", 1949, 5);
    librarian.AddBook("1984 Revisited", "Another Author", 2004, 2);
    var first, sequel := library.books[0], library.books[1];
    assert library.books == [first, sequel] && first.Plain? && sequel.Plain?;
    assert OccursAt(first.Title(), "1984", 0);
    assert OccursAt(sequel.Title(), "1984", 0);
    assert FindBook(library.books, "1984") == Some(0);
    assert RemoveAt([first, sequel], 0) == [sequel];
    var _ := librarian.RateBook("1984", Rating("4.5"));
    assert library.books[0] == sequel;
    assert FindBook(library.books, "1984") == Some(0);
    found := librarian.FindBookByTitle("1984");
  }
  /** "Gatsby" and "The Great Gatsby" with five copies each, and one member. */
  method GatsbyShelved() returns (librarian: Librarian, short: Book, long: Book, reader: Member)
    ensures fresh(librarian.library) && fresh(short) && fresh(long) && fresh(reader)
    ensures librarian.library.books == [Plain(short), Plain(long)] && librarian.library.members == [reader]
    ensures short.title == "Gatsby" && long.title == "The Great Gatsby" && short != long
    ensures short.quantity == 5 && short.loanHistory == []
    ensures long.quantity == 5 && long.loanHistory == []
    ensures reader.id == "M1" && reader.loans == []
    ensures librarian.library.loanedBooksCount == 0
  {
    var library := new Library();
    librarian := new Librarian(library);
    librarian.AddBook("Gatsby", "F. Scott Fitzgerald", 1925, 5);
    librarian.AddBook("The Great Gatsby", "F. Scott Fitzgerald", 1925, 5);
    var _ := librarian.AddMember("Reader", "M1");
    var first, second := library.books[0], library.books[1];
    reader := library.members[0];
    assert library.books == [first, second] && library.members == [reader];
    assert first.Plain? && second.Plain? && first.book != second.book;
    short, long := first.book, second.book;
  }

  /** The same catalog with one copy of "Gatsby" lent to the member. */
  method GatsbyLent() returns (librarian: Librarian, short: Book, long: Book, reader: Member, loan: Loan)
    ensures fresh(librarian.library) && fresh(short) && fresh(long) && fresh(reader)
    ensures librarian.library.books == [Plain(short), Plain(long)] && librarian.library.members == [reader]
    ensures short.title == "Gatsby" && long.title == "The Great Gatsby"
    ensures short.quantity == 4 && short.loanHistory == [loan]
    ensures long.quantity == 5 && long.loanHistory == []
    ensures reader.id == "M1" && reader.loans == [loan] && loan.book == Plain(short)
    ensures librarian.library.loanedBooksCount == 1
  {
    librarian, short, long, reader := GatsbyShelved();
    assert OccursAt(Plain(short).Title(), "Gatsby", 0);
    assert librarian.Found("Gatsby") == Some(Plain(short));
    assert librarian.FoundMember("M1") == Some(reader);
    var _ := librarian.LendBook("Gatsby", "M1", 0);
    loan := reader.loans[0];
  }

  /**
   * "Gatsby" is lent, then rated, which moves it behind "The Great Gatsby".
   * Returning "Gatsby" credits the copy to "The Great Gatsby", the first
   * match, and takes the loan off the member and off that book's history,
   * where it never was: "Gatsby" keeps four copies and still records the
   * loan, while the member holds no loan and the loaned counter is back at 0.
   */
  method ReturnCreditsFirstMatch() returns (great: int32, gatsby: int32, held: nat, recorded: bool, loaned: int32)
    ensures great == 6 && gatsby == 4 && held == 0 && recorded && loaned == 0
  {
    var librarian, short, long, reader, loan := GatsbyLent();
    var library := librarian.library;
    assert RemoveAt([Plain(short), Plain(long)], 0) == [Plain(long)];
    assert OccursAt(Plain(short).Title(), "Gatsby", 0);
    assert FindBook(library.books, "Gatsby") == Some(0);
    var _ := librarian.RateBook("Gatsby", Rating("4.0"));
    assert library.books[0] == Plain(long) && library.members == [reader];
    assert OccursAt(Plain(long).Title(), "Gatsby", 10);
    assert librarian.Found("Gatsby") == Some(Plain(long));
    assert librarian.FoundMember("M1") == Some(reader);
    assert reader.loans == [loan] && loan.book.Title() == "Gatsby";
    assert FirstLoanWithTitle(reader.loans, "Gatsby") == Some(0);
    var _ := librarian.ReturnBook("Gatsby", "M1");
    great := long.quantity;
    gatsby := short.quantity;
    held := |reader.loans|;
    recorded := loan in short.loanHistory;
    loaned := library.loanedBooksCount;
  }
}
