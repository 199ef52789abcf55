/**
 * The catalog as the source runs it: one object whose `books` dictionary and
 * `members` list the operations update step by step. Each method is proved to
 * leave the object exactly in the state the matching `CatalogSpec` function
 * describes, and to keep the invariant `CatalogSpec.Inv`.
 */
module Library {
  import opened LibraryTypes
  import Spec = CatalogSpec
  import CatalogLemmas

  class Library {
    /** ISBN to book record. */
    var books: map<string, Book>
    /** The iteration order of `books`: keys in insertion order. */
    var order: seq<string>
    var members: seq<Member>

    /** The abstract value of the object. */
    function State(): Spec.Catalog
      reads this
    {
      Spec.Catalog(books, order, members)
    }

    ghost predicate Valid()
      reads this
    {
      Spec.Inv(State())
    }

    constructor ()
      ensures Valid() && State() == Spec.Empty
    {
      books := map[];
      order := [];
      members := [];
      CatalogLemmas.EmptyInv();
    }

    /** The scan for a member id that most operations start with: the first match, or none. */
    method FindMember(memberId: string) returns (found: Option<nat>)
      ensures found == Spec.IndexOf(members, memberId)
    {
      found := None;
      var i := 0;
      while i < |members|
        invariant 0 <= i <= |members|
        invariant found == None
        invariant forall j :: 0 <= j < i ==> members[j].memberId != memberId
      {
        if members[i].memberId == memberId {
          found := Some(i);
          break;
        }
        i := i + 1;
      }
    }

    method AddBook(isbn: string, title: string, author: string, genre: string, totalCopies: int)
      returns (r: Outcome)
      requires Valid()
      modifies this
      ensures Valid()
      ensures Spec.Step(r, State()) == Spec.AddBook(old(State()), isbn, title, author, genre, totalCopies)
      ensures members == old(members)
    {
      CatalogLemmas.AddBookKeepsInv(State(), isbn, title, author, genre, totalCopies);
      if isbn in books {
        return Fail(DuplicateIsbn);
      }
      if genre !in ValidGenres {
        return Fail(InvalidGenre);
      }
      books := books[isbn := Book(title, author, genre, totalCopies, totalCopies, [])];
      order := order + [isbn];
      r := Ok;
    }

    /** `search_books`: walks the books in iteration order, collecting the matches. */
    method SearchBooks(searchBy: string, keyword: string) returns (results: seq<(string, Book)>)
      requires Valid()
      ensures results == Spec.Search(books, order, searchBy, keyword)
    {
      results := [];
      var kw := Spec.Lower(keyword);
      for i := 0 to |order|
        invariant results == Spec.Search(books, order[..i], searchBy, keyword)
      {
        assert order[..i + 1][..i] == order[..i];
        var isbn := order[i];
        var book := books[isbn];
        if searchBy == "title" && Spec.Contains(Spec.Lower(book.title), kw) {
          results := results + [(isbn, book)];
        } else if searchBy == "author" && Spec.Contains(Spec.Lower(book.author), kw) {
          results := results + [(isbn, book)];
        }
      }
      assert order[..|order|] == order;
    }

    /**
     * `update_book`: writes the allowed keyword arguments into the record one by
     * one; an invalid genre returns at once, leaving earlier writes in place.
     */
    method UpdateBook(isbn: string, patch: seq<BookField>) returns (r: Outcome)
      requires Valid()
      modifies this
      ensures Valid()
      ensures Spec.Step(r, State()) == Spec.UpdateBook(old(State()), isbn, patch)
    {
      ghost var before := State();
      if isbn !in books {
        return Fail(BookNotFound);
      }
      var book := books[isbn];
      var i := 0;
      while i < |patch|
        invariant 0 <= i <= |patch|
        invariant books == before.books[isbn := book]
        invariant order == before.order && members == before.members
        invariant Spec.PatchBook(before.books[isbn], patch) == Spec.PatchBook(book, patch[i..])
      {
        assert patch[i..][0] == patch[i] && patch[i..][1..] == patch[i + 1..];
        match patch[i] {
          case SetTitle(t) =>
            book := book.(title := t);
          case SetAuthor(a) =>
            book := book.(author := a);
          case SetGenre(g) =>
            if g !in ValidGenres {
              assert Spec.PatchBook(before.books[isbn], patch) == Spec.Patched(Fail(InvalidGenre), book);
              assert State() == Spec.UpdateBook(before, isbn, patch).after;
              CatalogLemmas.UpdateBookKeepsInv(before, isbn, patch);
              return Fail(InvalidGenre);
            }
            book := book.(genre := g);
          case SetTotalCopies(n) =>
            book := book.(totalCopies := n);
          case IgnoredBookField(_) =>
        }
        // The record is shared with the map, so every write shows there at once.
        books := books[isbn := book];
        i := i + 1;
      }
      r := Ok;
      assert Spec.PatchBook(before.books[isbn], patch) == Spec.Patched(Ok, book);
      assert State() == Spec.UpdateBook(before, isbn, patch).after;
      CatalogLemmas.UpdateBookKeepsInv(before, isbn, patch);
    }

    method DeleteBook(isbn: string) returns (r: Outcome)
      requires Valid()
      modifies this
      ensures Valid()
      ensures Spec.Step(r, State()) == Spec.DeleteBook(old(State()), isbn)
    {
      CatalogLemmas.DeleteBookKeepsInv(State(), isbn);
      if isbn !in books {
        return Fail(BookNotFound);
      }
      if |books[isbn].borrowedBy| > 0 {
        return Fail(BookHasBorrows);
      }
      books := books - {isbn};
      order := Spec.RemoveFirst(order, isbn);
      r := Ok;
    }

    /** `add_member`: scans for a duplicate id, then appends. */
    method AddMember(memberId: string, name: string, email: string) returns (r: Outcome)
      requires Valid()
      modifies this
      ensures Valid()
      ensures Spec.Step(r, State()) == Spec.AddMember(old(State()), memberId, name, email)
      ensures books == old(books) && order == old(order)
    {
      CatalogLemmas.AddMemberKeepsInv(State(), memberId, name, email);
      for i := 0 to |members|
        invariant forall j :: 0 <= j < i ==> members[j].memberId != memberId
      {
        if members[i].memberId == memberId {
          return Fail(DuplicateMemberId);
        }
      }
      members := members + [Member(memberId, name, email, [])];
      r := Ok;
    }

    /** `update_member`: finds the member, then writes the allowed keyword arguments one by one. */
    method UpdateMember(memberId: string, patch: seq<MemberField>) returns (r: Outcome)
      requires Valid()
      modifies this
      ensures Valid()
      ensures Spec.Step(r, State()) == Spec.UpdateMember(old(State()), memberId, patch)
    {
      ghost var before := State();
      var found := FindMember(memberId);
      if found.None? {
        return Fail(MemberNotFound);
      }
      var m := found.value;
      var i := 0;
      while i < |patch|
        invariant 0 <= i <= |patch|
        invariant |members| == |before.members| && members == before.members[m := members[m]]
        invariant books == before.books && order == before.order
        invariant Spec.PatchMember(before.members[m], patch) == Spec.PatchMember(members[m], patch[i..])
      {
        assert patch[i..][0] == patch[i] && patch[i..][1..] == patch[i + 1..];
        var member := members[m];
        match patch[i] {
          case SetName(n) =>
            members := members[m := member.(name := n)];
          case SetEmail(e) =>
            members := members[m := member.(email := e)];
          case IgnoredMemberField(_) =>
        }
        i := i + 1;
      }
      r := Ok;
      assert State() == Spec.UpdateMember(before, memberId, patch).after;
      CatalogLemmas.UpdateMemberKeepsInv(before, memberId, patch);
    }

    /** `delete_member`: the source removes the first record equal to the one found, which is the one at `i`. */
    method DeleteMember(memberId: string) returns (r: Outcome)
      requires Valid()
      modifies this
      ensures Valid()
      ensures Spec.Step(r, State()) == Spec.DeleteMember(old(State()), memberId)
    {
      CatalogLemmas.DeleteMemberKeepsInv(State(), memberId);
      var found := FindMember(memberId);
      if found.None? {
        return Fail(MemberNotFound);
      }
      var i := found.value;
      if |members[i].borrowedBooks| > 0 {
        return Fail(MemberHasBorrows);
      }
      members := members[..i] + members[i + 1..];
      r := Ok;
    }

    /** `borrow_book`: five checks in order, then three updates. */
    method BorrowBook(memberId: string, isbn: string) returns (r: Outcome)
      requires Valid()
      modifies this
      ensures Valid()
      ensures Spec.Step(r, State()) == Spec.BorrowBook(old(State()), memberId, isbn)
    {
      ghost var before := State();
      var found := FindMember(memberId);
      if found.None? {
        return Fail(MemberNotFound);
      }
      var i := found.value;
      if isbn !in books {
        return Fail(BookNotFound);
      }
      var member, book := members[i], books[isbn];
      if |member.borrowedBooks| >= BorrowLimit {
        return Fail(LimitReached);
      }
      if book.availableCopies <= 0 {
        return Fail(NoCopies);
      }
      if isbn in member.borrowedBooks {
        return Fail(AlreadyBorrowed);
      }
      CatalogLemmas.BorrowUnfolds(before, i, memberId, isbn);
      members := members[i := member.(borrowedBooks := member.borrowedBooks + [isbn])];
      books := books[isbn := book.(borrowedBy := book.borrowedBy + [memberId],
                                   availableCopies := book.availableCopies - 1)];
      r := Ok;
      assert State() == Spec.BorrowBook(before, memberId, isbn).after;
      CatalogLemmas.BorrowKeepsInv(before, memberId, isbn);
    }

    /** `return_book`: three checks, then the three reverse updates. */
    method ReturnBook(memberId: string, isbn: string) returns (r: Outcome)
      requires Valid()
      modifies this
      ensures Valid()
      ensures Spec.Step(r, State()) == Spec.ReturnBook(old(State()), memberId, isbn)
    {
      ghost var before := State();
      var found := FindMember(memberId);
      if found.None? {
        return Fail(MemberNotFound);
      }
      var i := found.value;
      if isbn !in books {
        return Fail(BookNotFound);
      }
      var member, book := members[i], books[isbn];
      if isbn !in member.borrowedBooks {
        return Fail(NotBorrowed);
      }
      CatalogLemmas.ReturnUnfolds(before, i, memberId, isbn);
      members := members[i := member.(borrowedBooks := Spec.RemoveFirst(member.borrowedBooks, isbn))];
      books := books[isbn := book.(borrowedBy := Spec.RemoveFirst(book.borrowedBy, memberId),
                                   availableCopies := book.availableCopies + 1)];
      r := Ok;
      assert State() == Spec.ReturnBook(before, memberId, isbn).after;
      CatalogLemmas.ReturnKeepsInv(before, memberId, isbn);
    }

    /** `get_member_borrowed_books`: the member's list, or `[]` for an unknown id. */
    method GetMemberBorrowedBooks(memberId: string) returns (isbns: seq<string>)
      ensures isbns == Spec.MemberBorrowedBooks(State(), memberId)
    {
      var found := FindMember(memberId);
      if found.None? {
        return [];
      }
      isbns := members[found.value].borrowedBooks;
    }
  }
}
