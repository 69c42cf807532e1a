/**
 * The lending entities: books with a copy counter and a loan history,
 * members with their active loans, the loans that link the two, and the
 * rating wrapper that can stand in for a book in the catalog.
 *
 * These live in one module because the types refer to each other in a cycle:
 * a Book keeps its Loans, and a Loan refers to the catalog object it was made
 * for, which may be a plain Book or a RatedBook wrapping one.
 *
 * A reference of the Java static type `Book` is an `Entry`: its runtime class
 * is either `Book` itself (`Plain`) or the decorator `RatedBook` (`Rated`).
 * The decorator's own state is only its rating; everything else it forwards
 * to the wrapped Book, which the model makes explicit with `Entry.Base()`.
 */
module Entities {
  import opened Numerics
  import opened Wrappers
  import opened Lists

  /** A `java.util.Date`, as milliseconds since the epoch. The clock is outside the model: callers pass the time in. */
  type Timestamp = int

  /**
   * A rating, a Java `double`, kept as its `Double.toString` rendering.
   * That rendering is what the rated title shows, and two doubles compare
   * equal under `Double.compare` exactly when their renderings are equal, so
   * no floating-point arithmetic is needed to model the wrapper.
   */
  datatype Rating = Rating(text: string)

  // ---------------------------------------------------------------------------
  // The copy counter of a Book
  // ---------------------------------------------------------------------------

  /** The copy count after `lendCopy`. */
  function AfterLend(quantity: int32): int32
  {
    if quantity > 0 then quantity - 1 else quantity
  }

  /** The copy count after `returnCopy`: a Java `quantity++`, unconditional. */
  function AfterReturn(quantity: int32): int32
  {
    Succ(quantity)
  }

  /** The copy count after `setAvailable(available)`. */
  function AfterSetAvailable(quantity: int32, available: bool): int32
  {
    if !available then 0 else if quantity > 1 then quantity else 1
  }

  /** Lending takes away exactly one copy when one is there, and otherwise changes nothing. */
  lemma LendTakesOneCopy(q: int32)
    ensures q > 0 ==> AfterLend(q) == q - 1
    ensures q <= 0 ==> AfterLend(q) == q
    ensures q >= 0 ==> AfterLend(q) >= 0
  {
  }

  /** Lending from a positive count and returning restores the count. */
  lemma LendThenReturn(q: int32)
    requires q > 0
    ensures AfterReturn(AfterLend(q)) == q
  {
  }

  /**
   * Returning and then lending restores the count exactly when the count is
   * non-negative and below INT_MAX: from a negative count the lend is refused,
   * and from INT_MAX the return wraps around to INT_MIN.
   */
  lemma ReturnThenLend(q: int32)
    ensures AfterLend(AfterReturn(q)) == q <==> 0 <= q < INT_MAX
  {
    if q == INT_MAX {
      assert AfterReturn(q) == INT_MIN;
    }
  }

  /** After `setAvailable(a)` the book is available exactly when `a`; making an available book available changes nothing. */
  lemma SetAvailableMeans(q: int32, available: bool)
    ensures (AfterSetAvailable(q, available) > 0) == available
    ensures available && q > 0 ==> AfterSetAvailable(q, available) == q
  {
  }

  // ---------------------------------------------------------------------------
  // Book
  // ---------------------------------------------------------------------------

  /** A catalog book: descriptive fields that never change, a copy counter and the loans made of it. */
  class Book {
    const title: string
    const author: string
    const year: int32
    var quantity: int32
    var loanHistory: seq<Loan>

    constructor (title: string, author: string, year: int32, quantity: int32)
      ensures this.title == title && this.author == author && this.year == year
      ensures this.quantity == quantity && loanHistory == []
      ensures IsAvailable() <==> quantity > 0
    {
      this.title := title;
      this.author := author;
      this.year := year;
      this.quantity := quantity;
      loanHistory := [];
    }

    predicate IsAvailable()
      reads this
    {
      quantity > 0
    }

    /** Stores any count, without a range check. */
    method SetQuantity(quantity: int32)
      modifies this`quantity
      ensures this.quantity == quantity
    {
      this.quantity := quantity;
    }

    method LendCopy()
      modifies this`quantity
      ensures quantity == AfterLend(old(quantity))
      ensures old(quantity) >= 0 ==> quantity >= 0
    {
      if quantity > 0 {
        quantity := quantity - 1;
      }
    }

    method ReturnCopy()
      modifies this`quantity
      ensures quantity == AfterReturn(old(quantity))
    {
      quantity := Succ(quantity);
    }

    method AddLoan(loan: Loan)
      modifies this`loanHistory
      ensures loanHistory == old(loanHistory) + [loan]
    {
      loanHistory := loanHistory + [loan];
    }

    method RemoveLoan(loan: Loan)
      modifies this`loanHistory
      ensures loanHistory == RemoveFirst(old(loanHistory), loan)
    {
      loanHistory := RemoveFirst(loanHistory, loan);
    }

    method SetAvailable(available: bool)
      modifies this`quantity
      ensures quantity == AfterSetAvailable(old(quantity), available)
      ensures IsAvailable() == available
    {
      if available {
        quantity := if quantity > 1 then quantity else 1;
      } else {
        quantity := 0;
      }
    }
  }

  // ---------------------------------------------------------------------------
  // Loan
  // ---------------------------------------------------------------------------

  /** One loan: the catalog object lent, the borrower, when, and (once set) when it came back. */
  class Loan {
    const book: Entry
    const member: Member
    const loanDate: Timestamp
    var returnDate: Option<Timestamp>

    constructor (book: Entry, member: Member, now: Timestamp)
      ensures this.book == book && this.member == member
      ensures loanDate == now && returnDate == None
    {
      this.book := book;
      this.member := member;
      loanDate := now;
      returnDate := None;
    }

    method SetReturnDate(returnDate: Option<Timestamp>)
      modifies this`returnDate
      ensures this.returnDate == returnDate
    {
      this.returnDate := returnDate;
    }
  }

  // ---------------------------------------------------------------------------
  // Member
  // ---------------------------------------------------------------------------

  /** The rated wrappers among the books of these loans: the only state their titles depend on. */
  function LoanTitleFrame(loans: seq<Loan>): set<RatedBook>
  {
    set loan | loan in loans && loan.book.Rated? :: loan.book.rated
  }

  /** The position of the first loan whose book's title is exactly `title`. */
  function FirstLoanWithTitle(loans: seq<Loan>, title: string): (r: Option<nat>)
    reads LoanTitleFrame(loans)
    ensures r.Some? ==> r.value < |loans| && loans[r.value].book.Title() == title
    ensures forall j :: 0 <= j < |loans| && (r.Some? ==> j < r.value) ==> loans[j].book.Title() != title
  {
    if loans == [] then None
    else if loans[0].book.Title() == title then Some(0)
    else match FirstLoanWithTitle(loans[1..], title)
      case None => None
      case Some(i) => Some(i + 1)
  }

  /** A library member: a fixed name and id, and the loans currently held. */
  class Member {
    const name: string
    const id: string
    var loans: seq<Loan>

    constructor (name: string, id: string)
      ensures this.name == name && this.id == id && loans == []
    {
      this.name := name;
      this.id := id;
      loans := [];
    }

    method AddLoan(loan: Loan)
      modifies this`loans
      ensures loans == old(loans) + [loan]
    {
      loans := loans + [loan];
    }

    method RemoveLoan(loan: Loan)
      modifies this`loans
      ensures loans == RemoveFirst(old(loans), loan)
    {
      loans := RemoveFirst(loans, loan);
    }

    /** The first held loan, in list order, whose book's title equals `title` exactly. */
    method FindLoanByBook(title: string) returns (r: Option<Loan>)
      ensures r.None? <==> FirstLoanWithTitle(loans, title).None?
      ensures r.Some? ==> r.value == loans[FirstLoanWithTitle(loans, title).value]
      ensures r.Some? ==> r.value in loans && r.value.book.Title() == title
    {
      var i := 0;
      while i < |loans|
        invariant 0 <= i <= |loans|
        invariant forall j :: 0 <= j < i ==> loans[j].book.Title() != title
      {
        if loans[i].book.Title() == title {
          return Some(loans[i]);
        }
        i := i + 1;
      }
      return None;
    }
  }

  // ---------------------------------------------------------------------------
  // The rating decorator
  // ---------------------------------------------------------------------------

  /** The forwarding layer of a decorated book: every call goes to the wrapped Book. */
  class BookDecorator {
    const decorated: Book

    constructor (decorated: Book)
      ensures this.decorated == decorated
    {
      this.decorated := decorated;
    }

    function Quantity(): int32
      reads decorated
    {
      decorated.quantity
    }

    predicate IsAvailable()
      reads decorated
    {
      decorated.IsAvailable()
    }

    method SetQuantity(quantity: int32)
      modifies decorated`quantity
      ensures decorated.quantity == quantity
    {
      decorated.SetQuantity(quantity);
    }

    method LendCopy()
      modifies decorated`quantity
      ensures decorated.quantity == AfterLend(old(decorated.quantity))
    {
      decorated.LendCopy();
    }

    method ReturnCopy()
      modifies decorated`quantity
      ensures decorated.quantity == AfterReturn(old(decorated.quantity))
    {
      decorated.ReturnCopy();
    }

    method AddLoan(loan: Loan)
      modifies decorated`loanHistory
      ensures decorated.loanHistory == old(decorated.loanHistory) + [loan]
    {
      decorated.AddLoan(loan);
    }

    method RemoveLoan(loan: Loan)
      modifies decorated`loanHistory
      ensures decorated.loanHistory == RemoveFirst(old(decorated.loanHistory), loan)
    {
      decorated.RemoveLoan(loan);
    }

    /**
     * Equality against another decorator (or null): the same wrapper, or
     * wrappers of the same Book. The lending layer never reaches this code:
     * the only decorator it creates is a RatedBook, which overrides `equals`.
     */
    predicate Equals(obj: BookDecorator?)
    {
      obj != null && (obj == this || decorated == obj.decorated)
    }
  }

  /** BookDecorator equality is an equivalence: reflexive, symmetric and transitive. */
  lemma DecoratorEqualsEquivalence(a: BookDecorator, b: BookDecorator, c: BookDecorator)
    ensures a.Equals(a) && !a.Equals(null)
    ensures a.Equals(b) ==> b.Equals(a)
    ensures a.Equals(b) && b.Equals(c) ==> a.Equals(c)
  {
  }

  /** A book with a rating: a decorator whose title shows the rating. */
  class RatedBook {
    /** The decorator part of the object, through which all book calls are forwarded. */
    const base: BookDecorator
    var rating: Rating

    constructor (decorated: Book, rating: Rating)
      ensures base.decorated == decorated && this.rating == rating
      ensures fresh(base)
    {
      base := new BookDecorator(decorated);
      this.rating := rating;
    }

    method SetRating(rating: Rating)
      modifies this`rating
      ensures this.rating == rating
    {
      this.rating := rating;
    }

    /** The wrapped title followed by " (Rated: <rating>)". */
    function Title(): (t: string)
      reads this
      ensures |t| > |base.decorated.title| && t[..|base.decorated.title|] == base.decorated.title
      ensures t[|base.decorated.title|..] == " (Rated: " + rating.text + ")"
    {
      base.decorated.title + " (Rated: " + rating.text + ")"
    }

    /** Equal to another RatedBook with the same rating wrapping the same Book; never equal to null or a plain Book. */
    predicate Equals(obj: Option<Entry>)
      reads this, if obj.Some? then obj.value.Footprint() else {}
    {
      obj.Some? && obj.value.Rated? &&
      (obj.value.rated == this ||
       (obj.value.rated.rating == rating && obj.value.rated.base.decorated == base.decorated))
    }
  }

  // ---------------------------------------------------------------------------
  // A catalog entry: a Book reference and its runtime class
  // ---------------------------------------------------------------------------

  datatype Entry = Plain(book: Book) | Rated(rated: RatedBook)
  {
    /** The Book object that holds the copies and the loan history. */
    function Base(): Book
    {
      if Plain? then book else rated.base.decorated
    }

    /** The heap state that `Title` and `Equals` read beyond the immutable fields. */
    function Footprint(): set<RatedBook>
    {
      if Rated? then {rated} else {}
    }

    /** `getTitle()`, dispatched on the runtime class. */
    function Title(): string
      reads Footprint()
    {
      if Plain? then book.title else rated.Title()
    }

    /** `getQuantity()`, dispatched on the runtime class. */
    function Quantity(): int32
      reads Base()
    {
      if Plain? then book.quantity else rated.base.Quantity()
    }

    /**
     * The copies available for lending. `Library.countAvailableBooks` asks for
     * an available count that Book does not define; with no borrowed counter in
     * Book, the available copies are the copy counter itself.
     */
    function AvailableQuantity(): int32
      reads Base()
    {
      Quantity()
    }

    /** `isAvailable()`, dispatched on the runtime class. */
    predicate IsAvailable()
      reads Base()
    {
      if Plain? then book.IsAvailable() else rated.base.IsAvailable()
    }

    /** `equals(obj)`, dispatched on the runtime class: identity for a plain Book. */
    predicate Equals(obj: Option<Entry>)
      reads Footprint(), if obj.Some? then obj.value.Footprint() else {}
    {
      if Plain? then obj == Some(this) else rated.Equals(obj)
    }

    method SetQuantity(quantity: int32)
      modifies Base()`quantity
      ensures Base().quantity == quantity
    {
      if Plain? { book.SetQuantity(quantity); } else { rated.base.SetQuantity(quantity); }
    }

    method LendCopy()
      modifies Base()`quantity
      ensures Base().quantity == AfterLend(old(Base().quantity))
    {
      if Plain? { book.LendCopy(); } else { rated.base.LendCopy(); }
    }

    method ReturnCopy()
      modifies Base()`quantity
      ensures Base().quantity == AfterReturn(old(Base().quantity))
    {
      if Plain? { book.ReturnCopy(); } else { rated.base.ReturnCopy(); }
    }

    method AddLoan(loan: Loan)
      modifies Base()`loanHistory
      ensures Base().loanHistory == old(Base().loanHistory) + [loan]
    {
      if Plain? { book.AddLoan(loan); } else { rated.base.AddLoan(loan); }
    }

    method RemoveLoan(loan: Loan)
      modifies Base()`loanHistory
      ensures Base().loanHistory == RemoveFirst(old(Base().loanHistory), loan)
    {
      if Plain? { book.RemoveLoan(loan); } else { rated.base.RemoveLoan(loan); }
    }
  }

  /** Every entry equals itself, and entries that are equal have the same title and the same underlying Book. */
  lemma EntryEqualsFacts(x: Entry, y: Entry)
    ensures x.Equals(Some(x))
    ensures !x.Equals(None)
    ensures x.Equals(Some(y)) ==> x.Title() == y.Title() && x.Base() == y.Base()
  {
  }

  /** The rated wrappers among a list of entries: the state their titles and equality depend on. */
  function RatedIn(entries: seq<Entry>): set<RatedBook>
  {
    set e | e in entries && e.Rated? :: e.rated
  }

  /** The Book objects behind a list of entries. */
  function BooksIn(entries: seq<Entry>): set<Book>
  {
    set e | e in entries :: e.Base()
  }
}
