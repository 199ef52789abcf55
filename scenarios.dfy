/**
 * The call sequences of the repository's unit tests, replayed as calls to the
 * `Library` class: each method's postcondition is what the test asserts.
 * Steps a test does not take are marked where a scenario goes further.
 */
module Scenarios {
  import opened LibraryTypes
  import L = Library

  /**
   * The first add succeeds and stores the ISBN; a duplicate ISBN and an
   * unknown genre are both refused.
   */
  method AddBookScenario() returns (first: Outcome, stored: bool, duplicate: Outcome, badGenre: Outcome)
    ensures first == Ok && stored
    ensures duplicate == Fail(DuplicateIsbn) && badGenre == Fail(InvalidGenre)
  {
    var lib := new L.Library();
    first := lib.AddBook("1234567890", "Python Programming", "John Doe", "Non-Fiction", 5);
    stored := "1234567890" in lib.books;
    duplicate := lib.AddBook("1234567890", "Another Book", "Jane Doe", "Fiction", 3);
    badGenre := lib.AddBook("0987654321", "Invalid Book", "Author", "InvalidGenre", 2);
  }

  /** A second member with the same id is refused and the list keeps one member. */
  method AddMemberScenario() returns (first: Outcome, duplicate: Outcome, count: nat)
    ensures first == Ok && duplicate == Fail(DuplicateMemberId) && count == 1
  {
    var lib := new L.Library();
    first := lib.AddMember("M001", "Alice Smith", "alice@email.com");
    duplicate := lib.AddMember("M001", "Bob Brown", "bob@email.com");
    count := |lib.members|;
  }

  /** Borrow succeeds, borrowing the same book again is refused, and the return succeeds. */
  method BorrowReturnScenario() returns (borrow: Outcome, again: Outcome, giveBack: Outcome)
    ensures borrow == Ok && again == Fail(AlreadyBorrowed) && giveBack == Ok
  {
    var lib := new L.Library();
    var r := lib.AddBook("1111111111", "Test Book", "Test Author", "Fiction", 2);
    r := lib.AddMember("M001", "Test Member", "test@email.com");
    borrow := lib.BorrowBook("M001", "1111111111");
    again := lib.BorrowBook("M001", "1111111111");
    giveBack := lib.ReturnBook("M001", "1111111111");
  }

  /** Adds a single-copy book under a fresh ISBN with an allowed genre. */
  method ShelveOne(lib: L.Library, isbn: string, title: string, author: string, genre: string)
    requires lib.Valid() && isbn !in lib.books && genre in ValidGenres
    modifies lib
    ensures lib.Valid() && lib.members == old(lib.members)
    ensures lib.books == old(lib.books)[isbn := Book(title, author, genre, 1, 1, [])]
  {
    var r := lib.AddBook(isbn, title, author, genre, 1);
  }

  /** The shelf of the borrow-limit test: one member and four single-copy books. */
  method FourBookShelf() returns (lib: L.Library)
    ensures fresh(lib) && lib.Valid()
    ensures lib.members == [Member("M001", "Test Member", "test@email.com", [])]
    ensures lib.books == map["1111111111" := Book("Book 1", "Author 1", "Fiction", 1, 1, []),
                             "2222222222" := Book("Book 2", "Author 2", "Non-Fiction", 1, 1, []),
                             "3333333333" := Book("Book 3", "Author 3", "Sci-Fi", 1, 1, []),
                             "4444444444" := Book("Book 4", "Author 4", "Mystery", 1, 1, [])]
  {
    lib := new L.Library();
    var r := lib.AddMember("M001", "Test Member", "test@email.com");
    ShelveOne(lib, "1111111111", "Book 1", "Author 1", "Fiction");
    ShelveOne(lib, "2222222222", "Book 2", "Author 2", "Non-Fiction");
    ShelveOne(lib, "3333333333", "Book 3", "Author 3", "Sci-Fi");
    ShelveOne(lib, "4444444444", "Book 4", "Author 4", "Mystery");
  }

  /**
   * Member "M001", the only member, borrows a book with a copy on the shelf
   * while holding fewer than three books and not this one: the loan goes
   * through and the other records stay as they were.
   */
  method LendBelowLimit(lib: L.Library, isbn: string) returns (r: Outcome)
    requires lib.Valid() && |lib.members| == 1 && lib.members[0].memberId == "M001"
    requires isbn in lib.books && lib.books[isbn].availableCopies == 1
    requires |lib.members[0].borrowedBooks| < BorrowLimit && isbn !in lib.members[0].borrowedBooks
    modifies lib
    ensures lib.Valid() && |lib.members| == 1 && lib.members[0].memberId == "M001"
    ensures r == Ok && lib.members[0].borrowedBooks == old(lib.members[0].borrowedBooks) + [isbn]
    ensures isbn in lib.books && lib.books == old(lib.books)[isbn := lib.books[isbn]]
  {
    r := lib.BorrowBook("M001", isbn);
  }

  /** The same member, already holding three books, is refused whatever the book. */
  method LendAtLimit(lib: L.Library, isbn: string) returns (r: Outcome)
    requires lib.Valid() && |lib.members| == 1 && lib.members[0].memberId == "M001"
    requires isbn in lib.books && |lib.members[0].borrowedBooks| == BorrowLimit
    modifies lib
    ensures r == Fail(LimitReached)
  {
    r := lib.BorrowBook("M001", isbn);
  }

  /** Three borrows succeed; the fourth is refused by the limit. */
  method BorrowLimitScenario() returns (first: Outcome, second: Outcome, third: Outcome, fourth: Outcome)
    ensures first == Ok && second == Ok && third == Ok
    ensures fourth == Fail(LimitReached)
  {
    var lib := FourBookShelf();
    first := LendBelowLimit(lib, "1111111111");
    second := LendBelowLimit(lib, "2222222222");
    third := LendBelowLimit(lib, "3333333333");
    fourth := LendAtLimit(lib, "4444444444");
  }

  /**
   * While a copy is out neither the book nor the member can be deleted, which
   * is what the test asserts. Going beyond the test, the copy is then
   * returned and both deletions succeed.
   */
  method DeleteWithBorrowsScenario()
    returns (bookBlocked: Outcome, memberBlocked: Outcome, bookDeleted: Outcome, memberDeleted: Outcome)
    ensures bookBlocked == Fail(BookHasBorrows) && memberBlocked == Fail(MemberHasBorrows)
    ensures bookDeleted == Ok && memberDeleted == Ok
  {
    var lib := OneCopyOut();
    bookBlocked := lib.DeleteBook("1111111111");
    memberBlocked := lib.DeleteMember("M001");
    var r := lib.ReturnBook("M001", "1111111111");
    bookDeleted := lib.DeleteBook("1111111111");
    memberDeleted := lib.DeleteMember("M001");
  }

  /** A single-copy book lent to the only member. */
  method OneCopyOut() returns (lib: L.Library)
    ensures fresh(lib) && lib.Valid()
    ensures |lib.members| == 1 && lib.members[0].memberId == "M001"
    ensures lib.members[0].borrowedBooks == ["1111111111"]
    ensures "1111111111" in lib.books && lib.books["1111111111"].borrowedBy == ["M001"]
  {
    lib := new L.Library();
    var r := lib.AddBook("1111111111", "Test Book", "Test Author", "Fiction", 1);
    r := lib.AddMember("M001", "Test Member", "test@email.com");
    r := lib.BorrowBook("M001", "1111111111");
    assert [] + ["1111111111"] == ["1111111111"] && [] + ["M001"] == ["M001"];
  }

  /**
   * Not a test of the repository: raising `total_copies` on a book with one
   * copy out leaves the shelf count where it was, 2 of 5 on the shelf after
   * lending one of 3.
   */
  method UpdateTotalScenario() returns (available: int, total: int)
    ensures available == 2 && total == 5
  {
    var lib := OneOfThreeLent();
    var r := lib.UpdateBook("9780134853987", [SetTotalCopies(5)]);
    available := lib.books["9780134853987"].availableCopies;
    total := lib.books["9780134853987"].totalCopies;
  }

  /** A three-copy book with one copy lent to the only member. */
  method OneOfThreeLent() returns (lib: L.Library)
    ensures fresh(lib) && lib.Valid()
    ensures "9780134853987" in lib.books && lib.books["9780134853987"].availableCopies == 2
  {
    lib := new L.Library();
    var r := lib.AddBook("9780134853987", "Clean Code", "Robert Martin", "Non-Fiction", 3);
    r := lib.AddMember("MEM001", "Alice Johnson", "alice@email.com");
    r := lib.BorrowBook("MEM001", "9780134853987");
  }
}
