# Library lending core, modelled in Dafny

A model of the lending layer of a small Java library-management system.

- **Entities.** A `Book` has fixed descriptive fields, a mutable copy counter and a loan history. A `Member` holds the loans currently out. A `Loan` links the catalog object lent to the borrower. A `RatedBook` decorator wraps a `Book`, forwards every copy and loan operation to it, and shows its rating in the title.
- **Catalog (`Library`).** It keeps the book and member lists and two loan counters, and prints a five-line summary.
- **Lending service (`Librarian`).** It validates and performs every operation:
  - looks books up by substring and members by exact id;
  - fails with a fixed message when a check fails;
  - otherwise updates the catalog, the book, the member and the counters.
- **`LibraryFacade`.** It is the entry point the application uses. It re-checks existence before delegating, and adds an exact-title lookup and a rating query of its own.

The project is split into these modules:

- `Numerics`: Java `int` wrap-around and `Integer.toString`.
- `Wrappers`: `Option`, `Result` and `Outcome`.
  - An operation that returns normally or throws `BookStateException` yields `Pass`/`Success` or `Fail(message)`/`Failure(message)`.
- `Lists`: `List.add` and `List.remove(Object)`.
- `Entities`: the entities.
  - A Java reference of static type `Book` is an `Entry`, either `Plain(Book)` or `Rated(RatedBook)`.
  - `Entry.Base()` is the `Book` object that actually holds the copies and the history.
- `Catalog`: the `Library` class.
- `Lending`: the `Librarian` class.
- `Facade`: the `LibraryFacade` class.
- `Scenarios`: concrete runs matching the repository's unit tests.

Objects the source updates in place are Dafny classes. Their methods carry field-level `modifies` clauses and state the whole new state. Lookups and sums are specified by functions (`FindBook`, `FindMember`, `FirstLoanWithTitle`, `FindExact`, `TotalCopies`), and the loops that compute them are proved against those functions.

Behaviour the model keeps exactly as the code has it:

- **Lookup.** It is by substring, first match in list order. The extra exact-title clause for rated books is subsumed by the substring test, and an empty query matches the first book.
- **Removing.** `removeBook` and `removeMember` do not look at outstanding loans.
- **Returning.** `returnBook` always adds a copy to the book the lookup finds, which is the first substring match.
  - It takes a loan off the member only when the member holds a loan whose book title equals the query exactly. Returning by a partial title leaves the loan in place.
  - That loan is removed from the history of the book the lookup found, which need not be the loan's own book, and the loaned counter goes down.
  - So the member's loans and the books' histories can disagree afterwards: with "Gatsby" lent, then rated (which moves it behind "The Great Gatsby"), returning "Gatsby" credits "The Great Gatsby" with the copy, while "Gatsby" keeps the loan in its history (`Scenarios.ReturnCreditsFirstMatch`).
- **Rating.** Rating a plain book removes it and appends a wrapper at the end of the list. The wrapper still matches the query, but a later book whose title contains the query is now found first: after rating "1984", the query "1984" finds "1984 Revisited" (`Lending.RatedEntryFoundAgainIff`, `Scenarios.RatingMovesBehindLaterMatch`).
- **Quantity checks.** The lending service checks the quantity range before the lookup, while the facade checks existence first.
- **Counters.** The copy counter and the loan counters are Java `int`s.
  - `returnCopy` and `incrementLoanedBooks` wrap from INT_MAX to INT_MIN.
  - `decrementLoanedBooks` has no floor and wraps from INT_MIN to INT_MAX.
  - Because of that wrap, `totalLoansCount` never goes down except by that wrap-around.
- **Available copies.** `Book` has no borrowed counter. Lending lowers `quantity` itself, and the available copies summed by `countAvailableBooks` are `quantity`.
  - The code calls `getAvailableQuantity`, which `Book` does not define.
  - The repository's tests disagree on this point: `src/test/LibraryFacadeTest.java:71` expects 4 copies after one loan, which agrees with the code, while `src/test/LibrarianTest.java:94` expects 5.

## Model

| member | source | states |
|---|---|---|
| Numerics.Wrap | src/model/Library.java:111-115 | the Java `int` a mathematical value becomes: in range it is unchanged, and it always differs from the value by a multiple of 2^32 |
| Numerics.WrapAdd | src/model/Library.java:111-115 | wrapping after every `+=` gives the same Java `int` as wrapping the whole sum once |
| Numerics.Succ | src/model/Book.java:50-52 | `x + 1` on an `int`: one more below INT_MAX, and INT_MAX wraps to INT_MIN |
| Numerics.Pred | src/model/Library.java:151-153 | `x - 1` on an `int`: one less above INT_MIN, and INT_MIN wraps to INT_MAX |
| Numerics.SuccPred | src/model/Library.java:143-153 | increment and decrement undo each other on every `int`, wrap-around included |
| Numerics.DigitChar | src/model/Library.java:97-101 | a decimal digit renders as a character from '0' to '9' |
| Numerics.Digits | src/model/Library.java:97-101 | a non-negative number renders as at least one digit, and at least two from ten upwards |
| Numerics.Decimal | src/model/Library.java:97-101 | `append(int)` renders a non-empty text that contains no newline |
| Numerics.YearRendering | src/model/Library.java:97-101 | a multi-digit number prints most significant digit first, with a leading minus when negative: 1951 as "1951", -1951 as "-1951" |
| Numerics.DigitsInjective | src/model/Library.java:97-101 | different non-negative numbers have different digit strings |
| Numerics.DecimalInjective | src/model/Library.java:97-101 | different `int`s are rendered differently, so a rendered number can be read back |
| Lists.IndexOf | src/model/Member.java:83-85 | the first position holding the element, and None exactly when it is absent |
| Lists.RemoveAt | src/model/Library.java:67-69 | deleting one position shortens the list by one and keeps every other element in order |
| Lists.RemoveFirstCount | src/model/Member.java:83-85 | `List.remove` deletes exactly one occurrence of a present element and leaves the list alone otherwise |
| Lists.AddThenRemove | src/model/Book.java:54-60 | adding a loan that was not in the list and removing it restores the list |
| Lists.RemoveFirstAt | src/model/Member.java:83-85 | removing an element by identity removes its first position |
| Entities.LendTakesOneCopy | src/model/Book.java:44-48 | `lendCopy` takes exactly one copy when there is one, does nothing otherwise, and never makes a non-negative count negative |
| Entities.LendThenReturn | src/model/Book.java:44-52 | lending then returning from a positive count restores it |
| Entities.ReturnThenLend | src/model/Book.java:44-52 | returning then lending restores the count if and only if it is non-negative and below INT_MAX |
| Entities.SetAvailableMeans | src/model/Book.java:79-85 | after `setAvailable(a)` the book is available exactly when `a` holds, and an available book keeps its count |
| Entities.Book.constructor | src/model/Book.java:15-21 | a new book stores the four arguments, has an empty loan history, and is available exactly when the quantity is positive |
| Entities.Book.SetQuantity | src/model/Book.java:40-42 | any count is stored, and only the counter changes |
| Entities.Book.LendCopy | src/model/Book.java:44-48 | the new count is the old one less one when positive, otherwise unchanged |
| Entities.Book.ReturnCopy | src/model/Book.java:50-52 | the count goes up by one unconditionally, with Java wrap-around |
| Entities.Book.AddLoan | src/model/Book.java:54-56 | the loan is appended to the history |
| Entities.Book.RemoveLoan | src/model/Book.java:58-60 | the first identical loan leaves the history; nothing changes if there is none |
| Entities.Book.SetAvailable | src/model/Book.java:79-85 | `false` sets the count to 0, `true` raises it to at least 1, and availability then equals the argument |
| Entities.Loan.constructor | src/model/Loan.java:30-34 | the loan keeps the given book and member, its date is the time passed in, and it has no return date |
| Entities.Loan.SetReturnDate | src/model/Loan.java:77-79 | only the return date changes, to the given value |
| Entities.FirstLoanWithTitle | src/model/Member.java:93-100 | the position of a loan whose book title equals the query exactly, with no earlier such loan; None when no loan matches |
| Entities.Member.constructor | src/model/Member.java:35-40 | a new member has the given name and id and no loans |
| Entities.Member.AddLoan | src/model/Member.java:74-76 | the loan is appended and earlier loans keep their order |
| Entities.Member.RemoveLoan | src/model/Member.java:83-85 | the first identical loan is removed, or nothing if it is absent |
| Entities.Member.FindLoanByBook | src/model/Member.java:93-100 | the first loan in list order whose book title equals the query exactly, None when there is none; the result is one of the member's loans, and nothing changes |
| Entities.BookDecorator.constructor | src/DesingP/decorator/BookDecorator.java:23-28 | the decorator holds the book it was given |
| Entities.BookDecorator.SetQuantity | src/DesingP/decorator/BookDecorator.java:79-83 | the wrapped book's count is set |
| Entities.BookDecorator.LendCopy | src/DesingP/decorator/BookDecorator.java:90-99 | the wrapped book lends a copy |
| Entities.BookDecorator.ReturnCopy | src/DesingP/decorator/BookDecorator.java:106-115 | the wrapped book takes a copy back |
| Entities.BookDecorator.AddLoan | src/DesingP/decorator/BookDecorator.java:122-126 | the loan is appended to the wrapped book's history |
| Entities.BookDecorator.RemoveLoan | src/DesingP/decorator/BookDecorator.java:133-137 | the loan is removed from the wrapped book's history |
| Entities.DecoratorEqualsEquivalence | src/DesingP/decorator/BookDecorator.java:168-177 | decorator equality is reflexive, false against null, symmetric and transitive |
| Entities.RatedBook.constructor | src/DesingP/decorator/RatedBook.java:21-24 | the new rated book wraps the given book, through a fresh decorator, with the given rating |
| Entities.RatedBook.SetRating | src/DesingP/decorator/RatedBook.java:40-42 | only the rating changes; the wrapped book is untouched |
| Entities.RatedBook.Title | src/DesingP/decorator/RatedBook.java:49-53 | the rated title starts with the wrapped title, followed by " (Rated: <rating>)" |
| Entities.EntryEqualsFacts | src/DesingP/decorator/RatedBook.java:62-70 | `equals` is reflexive and false against null, and equal entries share their title and their underlying book |
| Entities.Entry.SetQuantity | src/DesingP/decorator/BookDecorator.java:79-83 | for either runtime class, the count of the underlying book is set |
| Entities.Entry.LendCopy | src/DesingP/decorator/BookDecorator.java:90-99 | for either runtime class, the underlying book lends a copy |
| Entities.Entry.ReturnCopy | src/DesingP/decorator/BookDecorator.java:106-115 | for either runtime class, the underlying book takes a copy back |
| Entities.Entry.AddLoan | src/DesingP/decorator/BookDecorator.java:122-126 | for either runtime class, the loan is appended to the underlying book's history |
| Entities.Entry.RemoveLoan | src/DesingP/decorator/BookDecorator.java:133-137 | for either runtime class, the loan is removed from the underlying book's history |
| Catalog.FirstEqual | src/model/Library.java:67-69 | the position of the first entry the argument's `equals` accepts, with no earlier such entry |
| Catalog.RemoveEqualAt | src/model/Library.java:67-69 | removing an entry whose title occurs nowhere earlier deletes exactly its position |
| Catalog.TotalWithout | src/model/Library.java:110-116 | removing an entry removes exactly its copies from the total |
| Catalog.LineSplit | src/model/Library.java:97-101 | one summary line and the text after it determine the number on that line |
| Catalog.SummaryDeterminesCounts | src/model/Library.java:95-103 | the summary text determines all five numbers it reports |
| Catalog.Library.constructor | src/model/Library.java:28-33 | a new catalog has no books, no members and both counters at 0 |
| Catalog.Library.AddBook | src/model/Library.java:58-60 | the entry is appended |
| Catalog.Library.RemoveBook | src/model/Library.java:67-69 | the first entry the argument's `equals` accepts is removed, or nothing |
| Catalog.Library.AddMember | src/model/Library.java:76-78 | the member is appended |
| Catalog.Library.RemoveMember | src/model/Library.java:85-87 | the first identical member is removed, or nothing |
| Catalog.Library.IncrementLoanedBooks | src/model/Library.java:143-146 | both counters go up by one, with Java wrap-around |
| Catalog.Library.DecrementLoanedBooks | src/model/Library.java:151-153 | only the loaned counter goes down by one, with no floor; the lifetime count is untouched |
| Catalog.Library.CountTotalBooks | src/model/Library.java:110-116 | the sum of all copy counts, wrapped to a Java `int` |
| Catalog.Library.CountAvailableBooks | src/model/Library.java:132-138 | the sum of all available copies, wrapped to a Java `int`; with no borrowed counter in Book this is the total of the copy counters |
| Catalog.Library.GetLibrarySummary | src/model/Library.java:95-103 | the five labelled lines (total, available, loaned, members, lifetime loans), in that order, with nothing changed |
| Lending.RatedClauseSubsumed | src/model/Librarian.java:165-172 | the exact-title clause for rated books adds nothing: an entry matches if and only if its title contains the query |
| Lending.EmptyQueryMatches | src/model/Librarian.java:165-172 | the empty query matches every entry |
| Lending.RatedTitleStillMatches | src/DesingP/decorator/RatedBook.java:49-53 | every query found in the wrapped title is found in the rated title |
| Lending.FindBook | src/model/Librarian.java:165-172 | the position of an entry whose title matches, with no earlier matching entry; None when none matches |
| Lending.MovedToEnd | src/model/Librarian.java:203-205 | the catalog after `rateBook` on a plain entry: same length, the entries before it unchanged, the entries after it shifted down by one, and the wrapper last |
| Lending.WrapperStillMatches | src/model/Librarian.java:165-172 | the wrapper of a matching plain book matches the same query |
| Lending.NoMatchBeforeEnd | src/model/Librarian.java:203-205 | when only the rated entry matched, nothing before the appended wrapper matches |
| Lending.WrapperFoundAtEnd | src/model/Librarian.java:196-209 | when no entry after the rated one matches, the lookup finds the wrapper, now last |
| Lending.LaterMatchFoundFirst | src/model/Librarian.java:196-209 | when a later entry matches, the lookup after rating finds an entry before that one's old position, never the wrapper |
| Lending.RatedEntryFoundAgainIff | src/model/Librarian.java:196-209 | after rating a plain entry, the same query finds its wrapper if and only if no entry after it matched |
| Lending.FindBookAt | src/model/Librarian.java:165-172 | a matching position with no earlier match is exactly what the lookup returns |
| Lending.FindMember | src/model/Librarian.java:180-187 | the position of a member with exactly that id, with no earlier such member; None when there is none |
| Lending.AddKeepsIdsUnique | src/model/Librarian.java:84-90 | appending a member whose id is free keeps ids unique |
| Lending.RemoveKeepsIdsUnique | src/model/Librarian.java:98-105 | removing a member keeps ids unique |
| Lending.UniqueIdLookup | src/model/Librarian.java:180-187 | with unique ids the lookup finds the one member with the id, and after that member's removal the id is free |
| Lending.FoundIsFirstWithItsTitle | src/model/Librarian.java:49-56 | no entry before the found one has the same title, so `books.remove` takes the found position |
| Lending.FoundLoanIsFirstOccurrence | src/model/Librarian.java:146-149 | the loan found by title occurs nowhere earlier, so removing it by identity removes that position |
| Lending.Librarian.constructor | src/model/Librarian.java:24-26 | the service works on the given catalog |
| Lending.Librarian.FindBookByTitle | src/model/Librarian.java:165-172 | the first entry, in list order, whose title contains the query; None when none does |
| Lending.Librarian.FindMemberById | src/model/Librarian.java:180-187 | the first member whose id equals the query; None when none does |
| Lending.Librarian.AddBook | src/model/Librarian.java:36-41 | one new book with the given fields and an empty history is appended, with no validation and no duplicate check |
| Lending.Librarian.RemoveBook | src/model/Librarian.java:49-56 | the found entry's position is deleted whatever its loans; a missing title gives "Book not found: <title>" and no change |
| Lending.Librarian.UpdateBookQuantity | src/model/Librarian.java:65-75 | the range error comes first, then "Book not found"; on success only the found book's count changes |
| Lending.Librarian.AddMember | src/model/Librarian.java:84-90 | a taken id gives "ID already taken: <id>" and no change; otherwise a new member is appended; unique ids stay unique |
| Lending.Librarian.RemoveMember | src/model/Librarian.java:98-105 | the found member's position is deleted whatever loans the member holds; a missing id gives "Member not found: <id>" and no change |
| Lending.Librarian.LendBook | src/model/Librarian.java:115-132 | the checks run in the order book, member, availability, and a failure changes nothing; success takes one copy, appends one new loan to both the book history and the member's loans, raises both counters and returns true |
| Lending.Librarian.Checkout | src/model/Librarian.java:118-124 | one copy out, one fresh loan appended on both sides, both counters up |
| Lending.Librarian.ReturnBook | src/model/Librarian.java:141-157 | book then member are checked, and a failure changes nothing; otherwise one copy comes back to the found book (the first substring match); the member's first loan whose title equals the query exactly, if any, is removed from the member and from the found book's history (which need not hold it) and the loaned counter is decremented |
| Lending.Librarian.CheckIn | src/model/Librarian.java:145-151 | one copy back to the given book; the member's first loan titled exactly as the query, if any, leaves the member, is removed from the given book's history (unchanged when that history lacks it) and decrements the loaned counter |
| Lending.Librarian.RateBook | src/model/Librarian.java:196-209 | a rated entry gets the new rating in place and the list is unchanged; a plain entry is removed and a fresh wrapper of the same book is appended, keeping the length; a missing title gives "Book not found" |
| Lending.Librarian.GetUserLoans | src/model/Librarian.java:218-229 | the books of the member's loans, one per loan, in loan order; an unknown id gives "Member not found" |
| Facade.FindExact | src/DesingP/facade/LibraryFacade.java:222-229 | the position of an entry whose title is exactly the query, with no earlier such entry |
| Facade.ExactFoundBySubstring | src/DesingP/facade/LibraryFacade.java:222-229 | whatever the exact lookup finds, the substring lookup finds too, at the same position or earlier |
| Facade.LibraryFacade.constructor | src/DesingP/facade/LibraryFacade.java:31-35 | the facade shares the given catalog with a new lending service and appends the five sample books |
| Facade.LibraryFacade.AddSampleBooks | src/DesingP/facade/LibraryFacade.java:155-161 | five new books, in the fixed order, each with 5 copies and an empty history, are appended after the existing entries |
| Facade.LibraryFacade.AddBook | src/DesingP/facade/LibraryFacade.java:45-48 | the same effect as the lending service's `addBook` with the same four fields |
| Facade.LibraryFacade.RemoveBook | src/DesingP/facade/LibraryFacade.java:56-63 | a missing title gives "Book not found" and no change; otherwise the found position is deleted |
| Facade.LibraryFacade.AddMember | src/DesingP/facade/LibraryFacade.java:72-78 | a taken id gives "ID already taken" before anything is created; otherwise a new member is appended |
| Facade.LibraryFacade.RemoveMember | src/DesingP/facade/LibraryFacade.java:86-93 | a missing id gives "Member not found" and no change; otherwise the found position is deleted |
| Facade.LibraryFacade.LendBook | src/DesingP/facade/LibraryFacade.java:103-113 | the outcome and state change of the lending service's `lendBook`, with book and member checked first |
| Facade.LibraryFacade.ReturnBook | src/DesingP/facade/LibraryFacade.java:122-132 | the outcome and state change of the lending service's `returnBook`, with book and member checked first |
| Facade.LibraryFacade.GetLibrarySummary | src/DesingP/facade/LibraryFacade.java:139-141 | the catalog's summary text |
| Facade.LibraryFacade.GetAllBooks | src/DesingP/facade/LibraryFacade.java:148-150 | the catalog's book list as it stands, unchanged |
| Facade.LibraryFacade.RateBook | src/DesingP/facade/LibraryFacade.java:170-177 | a missing title gives "Book not found" and no change; otherwise the lending service's `rateBook` |
| Facade.LibraryFacade.GetBookRating | src/DesingP/facade/LibraryFacade.java:186-197 | the found book's rating, 0.0 for a plain book, and "Book not found" when the lookup fails |
| Facade.LibraryFacade.GetUserLoans | src/DesingP/facade/LibraryFacade.java:206-213 | "Member not found" for an unknown id; otherwise the books of the member's loans in loan order |
| Facade.LibraryFacade.FindBookByTitle | src/DesingP/facade/LibraryFacade.java:222-229 | the first entry whose whole title equals the query, and "Book not found" otherwise |
| Facade.LibraryFacade.GetTotalLoans | src/DesingP/facade/LibraryFacade.java:236-238 | the catalog's lifetime loan count |
| Facade.LibraryFacade.UpdateBookQuantity | src/DesingP/facade/LibraryFacade.java:247-254 | existence is checked before the range, so a missing title wins over an out-of-range quantity; on success only the found book's count changes |
| Scenarios.SummaryFiveOne | src/test/LibraryTest.java:89-93 | the summary of 5, 5, 1, 1, 1 is exactly the expected five-line text |
| Scenarios.SummaryAfterOneLoan | src/test/LibraryTest.java:83-95 | one book of five copies, one member and one counted loan give exactly that text |
| Scenarios.TwoBooksTotal | src/test/LibraryTest.java:64-80 | books of 5 and 3 copies give 8 total copies and 8 available copies |
| Scenarios.SecondLendWithoutCopies | src/test/LibrarianTest.java:109-122 | the only copy goes to the first member; the second request fails with "No available copies of the book: The Catcher in the Rye" |
| Scenarios.DuplicateMemberId | src/test/LibrarianTest.java:124-134 | a second member with a taken id is refused with "ID already taken: ID1" and the roster keeps one member |
| Scenarios.ReturnByPartialTitleKeepsLoan | src/model/Librarian.java:141-157 | lending and returning "Gatsby" restores 5 copies, but the loan stays with the member and the loaned counter stays at 1 |
| Scenarios.RatingMovesBehindLaterMatch | src/model/Librarian.java:196-209 | with "1984" and "1984 Revisited" in the catalog, after rating "1984" the lookup by "1984" finds the plain "1984 Revisited" |
| Scenarios.GatsbyShelved | src/model/Librarian.java:36-41 | adding "Gatsby" and "The Great Gatsby" with 5 copies each and one member gives a catalog of exactly those two plain books and that member |
| Scenarios.GatsbyLent | src/model/Librarian.java:115-132 | lending "Gatsby" takes one of its copies, records one loan on it and on the member, and raises the loaned counter to 1 |
| Scenarios.ReturnCreditsFirstMatch | src/model/Librarian.java:141-157 | after lending and rating "Gatsby", returning "Gatsby" leaves "The Great Gatsby" with 6 copies and "Gatsby" with 4; the member holds no loan, the loan stays in the history of "Gatsby", and the loaned counter is 0 |
| Scenarios.RatedBookStillFound | src/model/Librarian.java:196-209 | after rating "1984" with 4.5, the lookup by "1984" finds the rated entry, titled "1984 (Rated: 4.5)" |

## Left out

- The Swing GUI (`src/Main.java`, `src/UI/UI.java`) is input and output only.
- Observers and notifications are left out: they only print to the console, and nothing calls `notifyObservers`. This covers the `BookObserver` registered by `addBook` and the observer list of `Member`.
- The singleton `SingletonLibrary` is process-wide state. The catalog is passed to the lending service and the facade as an explicit object, and every use in the source refers to that one catalog.
- The factories are plain constructor calls, so they are modelled as direct construction.
- The clock is left out: `new Date()` in `Loan` becomes a `Timestamp` argument (`now`) passed to `LendBook`.
- The rating, a Java `double`, is kept as its `Double.toString` text (`Rating`). The model does no floating-point arithmetic. Equality of ratings is equality of that text, which is how `Double.compare(a, b) == 0` behaves on doubles rendered the same way.
- `Book.clone` is JVM shallow cloning and is not called by the lending layer.
- The getters are reads of fields. Loan's book, member and loan date are `const`, as they are final in effect: they have no setters.
- `BookDecorator` copies the wrapped book's fields into its own inherited `Book` state. That copy is never read, because every getter and mutator the lending layer uses is forwarded. `setAvailable` is not overridden, so on a wrapper it changes only that unread copy. `Entry` therefore has no `SetAvailable`.
- The `catch` blocks in `BookDecorator.lendCopy`/`returnCopy` add the prefixes "Error lending book copy: " and "Error returning book copy: ". They are unreachable, because `Book.lendCopy` and `returnCopy` never throw, so they are not modelled.
- `Library.countAvailableBooks` calls `getAvailableQuantity`, which `Book` does not define. The model sums the only copy counter `Book` has, `quantity`, so `Catalog.Library.CountAvailableBooks` returns the same total as `CountTotalBooks`.
- `Facade.LibraryFacade.LendBook`, `ReturnBook`, `RemoveBook`, `RemoveMember`, `AddMember`, `RateBook`, `GetUserLoans` and `UpdateBookQuantity` make their existence checks by evaluating `FindBook`/`FindMember`. They do not call the lending service's lookup methods, which are proved to return exactly those values and change nothing.
- The older duplicates `src/model/LibraryFacade.java`, `src/model/SingletonLibrary.java`, the factories and observer under `src/model/`, and `src/decorator/*` are not part of this model. They call a `Book` constructor and methods that no longer exist.
- Lists are values in the model. `getBooks`, `getAllBooks`, `getMembers`, `getLoans` and `getLoanHistory` return the live Java list, so a caller can change the catalog through it. The repository's tests clear the catalog that way (`src/test/LibrarianTest.java:21`, `src/test/LibraryFacadeTest.java:21`). That aliasing is not modelled; the lending layer itself never changes a list it got from a getter.
- Scenarios that go through the facade (for example, updating a missing title with quantity 25) are stated by the contracts of `Facade.LibraryFacade.UpdateBookQuantity` and `Lending.Librarian.UpdateBookQuantity`, not by a concrete run.
