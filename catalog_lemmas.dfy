/**
 * Properties of the catalog operations: what each one checks and in which
 * order, exactly what a success changes, that a failure changes nothing,
 * that every reachable state keeps the member/book cross-reference, the
 * borrow limit and the conservation of copies, and that a return undoes a
 * borrow.
 */
module CatalogLemmas {
  import opened LibraryTypes
  import opened CatalogSpec

  // ---------------------------------------------------------------------------
  // Sequence helpers

  lemma {:induction false} RemoveFirstDistinct(s: seq<string>, x: string)
    requires Distinct(s)
    ensures Distinct(RemoveFirst(s, x))
    ensures forall y :: y in RemoveFirst(s, x) <==> y in s && y != x
  {
    if s != [] && s[0] != x {
      assert Distinct(s[1..]);
      assert s[0] !in s[1..];
      RemoveFirstDistinct(s[1..], x);
    }
  }

  /**
   * `list.remove(x)` with the first occurrence of `x` at `k`: exactly that
   * element is dropped and the others keep their order.
   */
  lemma {:induction false} RemoveFirstAt(s: seq<string>, x: string, k: nat)
    requires k < |s| && s[k] == x && x !in s[..k]
    ensures RemoveFirst(s, x) == s[..k] + s[k + 1..]
  {
    if k == 0 {
      assert s[..0] + s[1..] == s[1..];
    } else {
      assert s[0] in s[..k];
      assert s[1..][..k - 1] == s[1..k];
      RemoveFirstAt(s[1..], x, k - 1);
      assert s[..k] == [s[0]] + s[1..][..k - 1];
      assert s[k + 1..] == s[1..][k..];
    }
  }

  lemma {:induction false} RemoveFirstAppended(s: seq<string>, x: string)
    requires x !in s
    ensures RemoveFirst(s + [x], x) == s
  {
    if s != [] {
      assert (s + [x])[1..] == s[1..] + [x];
      RemoveFirstAppended(s[1..], x);
    }
  }

  lemma DistinctAppend(s: seq<string>, x: string)
    requires Distinct(s) && x !in s
    ensures Distinct(s + [x])
  {
  }

  // ---------------------------------------------------------------------------
  // Member lookup

  /** With unique ids, the scan finds exactly the member carrying the id. */
  lemma IndexOfUnique(ms: seq<Member>, i: nat)
    requires UniqueIds(ms) && i < |ms|
    ensures IndexOf(ms, ms[i].memberId) == Some(i)
  {
  }

  /** The scan only looks at ids, so records that keep their ids keep every lookup. */
  lemma IndexOfSameIds(ms: seq<Member>, ms': seq<Member>, memberId: string)
    requires |ms| == |ms'|
    requires forall j :: 0 <= j < |ms| ==> ms'[j].memberId == ms[j].memberId
    ensures IndexOf(ms', memberId) == IndexOf(ms, memberId)
  {
  }

  /** Replacing one record by another with the same id leaves every lookup as it was. */
  lemma IndexOfAfterUpdate(ms: seq<Member>, i: nat, m': Member, memberId: string)
    requires i < |ms| && m'.memberId == ms[i].memberId
    ensures IndexOf(ms[i := m'], memberId) == IndexOf(ms, memberId)
  {
    IndexOfSameIds(ms, ms[i := m'], memberId);
  }

  // ---------------------------------------------------------------------------
  // Field patches

  /**
   * `update_book` never touches the copy count on the shelf nor the borrower
   * list, fails only with InvalidGenre, and never leaves an invalid genre behind.
   */
  lemma {:induction false} PatchBookKeepsCirculation(b: Book, patch: seq<BookField>)
    ensures PatchBook(b, patch).book.availableCopies == b.availableCopies
    ensures PatchBook(b, patch).book.borrowedBy == b.borrowedBy
    ensures PatchBook(b, patch).outcome in {Ok, Fail(InvalidGenre)}
    ensures b.genre in ValidGenres ==> PatchBook(b, patch).book.genre in ValidGenres
    decreases |patch|
  {
    if patch != [] {
      match patch[0]
      case SetTitle(t) => PatchBookKeepsCirculation(b.(title := t), patch[1..]);
      case SetAuthor(a) => PatchBookKeepsCirculation(b.(author := a), patch[1..]);
      case SetGenre(g) =>
        if g in ValidGenres { PatchBookKeepsCirculation(b.(genre := g), patch[1..]); }
      case SetTotalCopies(n) => PatchBookKeepsCirculation(b.(totalCopies := n), patch[1..]);
      case IgnoredBookField(_) => PatchBookKeepsCirculation(b, patch[1..]);
    }
  }

  /** `update_member` can never change the id or the borrowed list. */
  lemma {:induction false} PatchMemberKeepsIdentity(m: Member, patch: seq<MemberField>)
    ensures PatchMember(m, patch).memberId == m.memberId
    ensures PatchMember(m, patch).borrowedBooks == m.borrowedBooks
    decreases |patch|
  {
    if patch != [] {
      match patch[0]
      case SetName(n) => PatchMemberKeepsIdentity(m.(name := n), patch[1..]);
      case SetEmail(e) => PatchMemberKeepsIdentity(m.(email := e), patch[1..]);
      case IgnoredMemberField(_) => PatchMemberKeepsIdentity(m, patch[1..]);
    }
  }

  // ---------------------------------------------------------------------------
  // The invariant holds initially and is kept by every operation

  lemma EmptyInv()
    ensures Inv(Empty)
  {
  }

  lemma AddBookKeepsInv(c: Catalog, isbn: string, title: string, author: string, genre: string,
                        totalCopies: int)
    requires Inv(c)
    ensures Inv(AddBook(c, isbn, title, author, genre, totalCopies).after)
  {
    var s := AddBook(c, isbn, title, author, genre, totalCopies);
    if s.outcome == Ok {
      var c' := s.after;
      assert isbn !in c.order;
      DistinctAppend(c.order, isbn);
      forall x, id | x in c'.books && id in c'.books[x].borrowedBy
        ensures Holds(c'.members, id, x)
      {
        assert x != isbn && id in c.books[x].borrowedBy;
      }
    }
  }

  lemma UpdateBookKeepsInv(c: Catalog, isbn: string, patch: seq<BookField>)
    requires Inv(c)
    ensures Inv(UpdateBook(c, isbn, patch).after)
  {
    if isbn in c.books {
      PatchBookKeepsCirculation(c.books[isbn], patch);
      var c' := UpdateBook(c, isbn, patch).after;
      forall x, id | x in c'.books && id in c'.books[x].borrowedBy
        ensures Holds(c'.members, id, x)
      {
        assert id in c.books[x].borrowedBy;
      }
    }
  }

  lemma DeleteBookKeepsInv(c: Catalog, isbn: string)
    requires Inv(c)
    ensures Inv(DeleteBook(c, isbn).after)
  {
    var s := DeleteBook(c, isbn);
    if s.outcome == Ok {
      var c' := s.after;
      RemoveFirstDistinct(c.order, isbn);
      forall i, x | 0 <= i < |c'.members| && x in c'.members[i].borrowedBooks
        ensures x in c'.books && c'.members[i].memberId in c'.books[x].borrowedBy
      {
        assert x in c.books && c.members[i].memberId in c.books[x].borrowedBy;
        assert x != isbn;
      }
    }
  }

  lemma AddMemberKeepsInv(c: Catalog, memberId: string, name: string, email: string)
    requires Inv(c)
    ensures Inv(AddMember(c, memberId, name, email).after)
  {
    var s := AddMember(c, memberId, name, email);
    if s.outcome == Ok {
      var c' := s.after;
      forall x, id | x in c'.books && id in c'.books[x].borrowedBy
        ensures Holds(c'.members, id, x)
      {
        var j :| 0 <= j < |c.members| && c.members[j].memberId == id && x in c.members[j].borrowedBooks;
        assert c'.members[j] == c.members[j];
      }
    }
  }

  lemma UpdateMemberKeepsInv(c: Catalog, memberId: string, patch: seq<MemberField>)
    requires Inv(c)
    ensures Inv(UpdateMember(c, memberId, patch).after)
  {
    match IndexOf(c.members, memberId)
    case None =>
    case Some(i) =>
      PatchMemberKeepsIdentity(c.members[i], patch);
      var c' := UpdateMember(c, memberId, patch).after;
      assert forall j :: 0 <= j < |c.members| ==>
        c'.members[j].memberId == c.members[j].memberId
        && c'.members[j].borrowedBooks == c.members[j].borrowedBooks;
      forall x, id | x in c'.books && id in c'.books[x].borrowedBy
        ensures Holds(c'.members, id, x)
      {
        var j :| 0 <= j < |c.members| && c.members[j].memberId == id && x in c.members[j].borrowedBooks;
        assert c'.members[j].memberId == id && x in c'.members[j].borrowedBooks;
      }
  }

  lemma DeleteMemberKeepsInv(c: Catalog, memberId: string)
    requires Inv(c)
    ensures Inv(DeleteMember(c, memberId).after)
  {
    if DeleteMember(c, memberId).outcome == Ok {
      var i := IndexOf(c.members, memberId).value;
      RemovingMemberKeepsInv(c, i);
    }
  }

  /** Removing a member who holds nothing keeps the invariant. */
  lemma RemovingMemberKeepsInv(c: Catalog, i: nat)
    requires Inv(c)
    requires i < |c.members| && |c.members[i].borrowedBooks| == 0
    ensures Inv(c.(members := c.members[..i] + c.members[i + 1..]))
  {
    RemovingMemberKeepsRecords(c, i);
    RemovingMemberKeepsHolders(c, i);
  }

  /** The remaining members keep unique ids, well-formed lists and their links to books. */
  lemma RemovingMemberKeepsRecords(c: Catalog, i: nat)
    requires Inv(c)
    requires i < |c.members|
    ensures var c' := c.(members := c.members[..i] + c.members[i + 1..]);
      UniqueIds(c'.members) && RecordsWellFormed(c') && MembersToBooks(c')
  {
    var ms := c.members;
    var ms' := ms[..i] + ms[i + 1..];
    assert forall j :: 0 <= j < |ms'| ==> ms'[j] == (if j < i then ms[j] else ms[j + 1]);
  }

  /** Every listed borrower is still a member holding the book, since the removed one held nothing. */
  lemma RemovingMemberKeepsHolders(c: Catalog, i: nat)
    requires Inv(c)
    requires i < |c.members| && |c.members[i].borrowedBooks| == 0
    ensures BooksToMembers(c.(members := c.members[..i] + c.members[i + 1..]))
  {
    var ms := c.members;
    var ms' := ms[..i] + ms[i + 1..];
    forall x, id | x in c.books && id in c.books[x].borrowedBy
      ensures Holds(ms', id, x)
    {
      var j :| 0 <= j < |ms| && ms[j].memberId == id && x in ms[j].borrowedBooks;
      assert j != i;
      var j' := if j < i then j else j - 1;
      assert ms'[j'] == ms[j];
    }
  }

  lemma BorrowKeepsInv(c: Catalog, memberId: string, isbn: string)
    requires Inv(c)
    ensures Inv(BorrowBook(c, memberId, isbn).after)
  {
    if BorrowBook(c, memberId, isbn).outcome == Ok {
      var i := IndexOf(c.members, memberId).value;
      LendingKeepsInv(c, i, isbn);
    }
  }

  /** The three coordinated updates of a successful borrow keep the invariant. */
  lemma LendingKeepsInv(c: Catalog, i: nat, isbn: string)
    requires Inv(c)
    requires i < |c.members| && isbn in c.books
    requires |c.members[i].borrowedBooks| < BorrowLimit && isbn !in c.members[i].borrowedBooks
    ensures
      var m, b := c.members[i], c.books[isbn];
      Inv(c.(members := c.members[i := m.(borrowedBooks := m.borrowedBooks + [isbn])],
             books := c.books[isbn := b.(borrowedBy := b.borrowedBy + [m.memberId],
                                          availableCopies := b.availableCopies - 1)]))
  {
    var m, b := c.members[i], c.books[isbn];
    var m' := m.(borrowedBooks := m.borrowedBooks + [isbn]);
    var b' := b.(borrowedBy := b.borrowedBy + [m.memberId], availableCopies := b.availableCopies - 1);
    assert m.memberId !in b.borrowedBy;
    DistinctAppend(m.borrowedBooks, isbn);
    DistinctAppend(b.borrowedBy, m.memberId);
    LinkedPairKeepsMembersToBooks(c, i, isbn, m', b', true);
    LinkedPairKeepsBooksToMembers(c, i, isbn, m', b', true);
    assert RecordsWellFormed(c.(members := c.members[i := m'], books := c.books[isbn := b']));
  }

  lemma ReturnKeepsInv(c: Catalog, memberId: string, isbn: string)
    requires Inv(c)
    ensures Inv(ReturnBook(c, memberId, isbn).after)
  {
    if ReturnBook(c, memberId, isbn).outcome == Ok {
      var i := IndexOf(c.members, memberId).value;
      ReturnUnfolds(c, i, memberId, isbn);
      ReturningKeepsInv(c, i, isbn);
    }
  }

  /** The three reverse updates of a successful return keep the invariant. */
  lemma ReturningKeepsInv(c: Catalog, i: nat, isbn: string)
    requires Inv(c)
    requires i < |c.members| && isbn in c.books && isbn in c.members[i].borrowedBooks
    ensures
      var m, b := c.members[i], c.books[isbn];
      Inv(c.(members := c.members[i := m.(borrowedBooks := RemoveFirst(m.borrowedBooks, isbn))],
             books := c.books[isbn := b.(borrowedBy := RemoveFirst(b.borrowedBy, m.memberId),
                                          availableCopies := b.availableCopies + 1)]))
  {
    var m, b := c.members[i], c.books[isbn];
    var m' := m.(borrowedBooks := RemoveFirst(m.borrowedBooks, isbn));
    var b' := b.(borrowedBy := RemoveFirst(b.borrowedBy, m.memberId), availableCopies := b.availableCopies + 1);
    RemoveFirstDistinct(m.borrowedBooks, isbn);
    RemoveFirstDistinct(b.borrowedBy, m.memberId);
    LinkedPairKeepsMembersToBooks(c, i, isbn, m', b', false);
    LinkedPairKeepsBooksToMembers(c, i, isbn, m', b', false);
    assert RecordsWellFormed(c.(members := c.members[i := m'], books := c.books[isbn := b']));
  }

  /**
   * Replacing member `i` and book `isbn` together, so that both sides gain the
   * pair (`held`) or both lose it, keeps every holding listed by its book.
   */
  lemma LinkedPairKeepsMembersToBooks(c: Catalog, i: nat, isbn: string, m': Member, b': Book, held: bool)
    requires Inv(c) && i < |c.members| && isbn in c.books
    requires m'.memberId == c.members[i].memberId
    requires forall x :: x in m'.borrowedBooks <==>
               (x in c.members[i].borrowedBooks && x != isbn) || (held && x == isbn)
    requires forall id :: id in b'.borrowedBy <==>
               (id in c.books[isbn].borrowedBy && id != m'.memberId) || (held && id == m'.memberId)
    ensures MembersToBooks(c.(members := c.members[i := m'], books := c.books[isbn := b']))
  {
    var c' := c.(members := c.members[i := m'], books := c.books[isbn := b']);
    forall j, x | 0 <= j < |c'.members| && x in c'.members[j].borrowedBooks
      ensures x in c'.books && c'.members[j].memberId in c'.books[x].borrowedBy
    {
      if j != i {
        assert x in c.members[j].borrowedBooks;
        assert c.members[j].memberId != m'.memberId;
      }
    }
  }

  /** The converse direction for the same paired replacement: every listed borrower holds the book. */
  lemma LinkedPairKeepsBooksToMembers(c: Catalog, i: nat, isbn: string, m': Member, b': Book, held: bool)
    requires Inv(c) && i < |c.members| && isbn in c.books
    requires m'.memberId == c.members[i].memberId
    requires forall x :: x in m'.borrowedBooks <==>
               (x in c.members[i].borrowedBooks && x != isbn) || (held && x == isbn)
    requires forall id :: id in b'.borrowedBy <==>
               (id in c.books[isbn].borrowedBy && id != m'.memberId) || (held && id == m'.memberId)
    ensures BooksToMembers(c.(members := c.members[i := m'], books := c.books[isbn := b']))
  {
    var c' := c.(members := c.members[i := m'], books := c.books[isbn := b']);
    forall x, id | x in c'.books && id in c'.books[x].borrowedBy
      ensures Holds(c'.members, id, x)
    {
      if held && x == isbn && id == m'.memberId {
        assert c'.members[i].memberId == id && x in c'.members[i].borrowedBooks;
      } else {
        assert id in c.books[x].borrowedBy;
        var j :| 0 <= j < |c.members| && c.members[j].memberId == id && x in c.members[j].borrowedBooks;
        assert c'.members[j].memberId == id && x in c'.members[j].borrowedBooks;
      }
    }
  }

  /** Every operation, successful or not, keeps the invariant. */
  lemma InvPreserved(c: Catalog, op: Op)
    requires Inv(c)
    ensures Inv(Apply(c, op).after)
  {
    match op
    case AddBookOp(isbn, title, author, genre, n) => AddBookKeepsInv(c, isbn, title, author, genre, n);
    case UpdateBookOp(isbn, patch) => UpdateBookKeepsInv(c, isbn, patch);
    case DeleteBookOp(isbn) => DeleteBookKeepsInv(c, isbn);
    case AddMemberOp(id, name, email) => AddMemberKeepsInv(c, id, name, email);
    case UpdateMemberOp(id, patch) => UpdateMemberKeepsInv(c, id, patch);
    case DeleteMemberOp(id) => DeleteMemberKeepsInv(c, id);
    case BorrowOp(id, isbn) => BorrowKeepsInv(c, id, isbn);
    case ReturnOp(id, isbn) => ReturnKeepsInv(c, id, isbn);
  }

  /**
   * Every state reachable from start-up satisfies the invariant: member ids are
   * unique, nobody holds more than three books or one ISBN twice, and a member
   * holds an ISBN exactly when the book lists that member as a borrower.
   */
  lemma {:induction false} ReachableStatesKeepInv(ops: seq<Op>)
    ensures Inv(Run(Empty, ops))
  {
    EmptyInv();
    RunKeepsInv(Empty, ops);
  }

  lemma {:induction false} RunKeepsInv(c: Catalog, ops: seq<Op>)
    requires Inv(c)
    ensures Inv(Run(c, ops))
    decreases |ops|
  {
    if ops != [] {
      InvPreserved(c, ops[0]);
      RunKeepsInv(Apply(c, ops[0]).after, ops[1..]);
    }
  }

  // ---------------------------------------------------------------------------
  // Books: add, update, delete

  /**
   * `add_book`: an ISBN already present is rejected before the genre is looked
   * at; an unknown genre is rejected next; a failure changes nothing. A success
   * adds one entry with every copy on the shelf and no borrowers, appends its
   * ISBN to the iteration order, and leaves every other entry and the members alone.
   */
  lemma AddBookContract(c: Catalog, isbn: string, title: string, author: string, genre: string,
                        totalCopies: int)
    ensures var s := AddBook(c, isbn, title, author, genre, totalCopies);
      && (isbn in c.books ==> s.outcome == Fail(DuplicateIsbn))
      && (isbn !in c.books && genre !in ValidGenres ==> s.outcome == Fail(InvalidGenre))
      && (s.outcome == Ok <==> isbn !in c.books && genre in ValidGenres)
      && (s.outcome.Fail? ==> s.after == c)
      && (s.outcome == Ok ==>
            && s.after.books.Keys == c.books.Keys + {isbn}
            && s.after.books[isbn] == Book(title, author, genre, totalCopies, totalCopies, [])
            && (forall k :: k in c.books ==> s.after.books[k] == c.books[k])
            && s.after.order == c.order + [isbn]
            && s.after.members == c.members)
  {
  }

  /** A second `add_book` with the same ISBN always fails, whatever its other arguments. */
  lemma AddBookTwiceRejected(c: Catalog, isbn: string, title: string, author: string, genre: string,
                             totalCopies: int, title2: string, author2: string, genre2: string,
                             totalCopies2: int)
    requires AddBook(c, isbn, title, author, genre, totalCopies).outcome == Ok
    ensures var c' := AddBook(c, isbn, title, author, genre, totalCopies).after;
      AddBook(c', isbn, title2, author2, genre2, totalCopies2) == Step(Fail(DuplicateIsbn), c')
  {
  }

  /** An invalid genre anywhere in the patch: the patch position holds `SetGenre` of a non-listed genre. */
  predicate InvalidGenreAt(patch: seq<BookField>, j: int)
  {
    0 <= j < |patch| && patch[j].SetGenre? && patch[j].genre !in ValidGenres
  }

  /** `update_book` fails exactly when some keyword argument is an invalid genre. */
  lemma {:induction false} PatchBookFailsIffInvalidGenre(b: Book, patch: seq<BookField>)
    ensures PatchBook(b, patch).outcome.Fail? <==> exists j :: InvalidGenreAt(patch, j)
    decreases |patch|
  {
    if patch != [] {
      assert forall j :: 1 <= j < |patch| ==> (InvalidGenreAt(patch, j) <==> InvalidGenreAt(patch[1..], j - 1));
      if exists j :: InvalidGenreAt(patch[1..], j) {
        var j :| InvalidGenreAt(patch[1..], j);
        assert InvalidGenreAt(patch, j + 1);
      }
      match patch[0]
      case SetTitle(t) => PatchBookFailsIffInvalidGenre(b.(title := t), patch[1..]);
      case SetAuthor(a) => PatchBookFailsIffInvalidGenre(b.(author := a), patch[1..]);
      case SetGenre(g) =>
        if g in ValidGenres {
          PatchBookFailsIffInvalidGenre(b.(genre := g), patch[1..]);
        } else {
          assert InvalidGenreAt(patch, 0);
        }
      case SetTotalCopies(n) => PatchBookFailsIffInvalidGenre(b.(totalCopies := n), patch[1..]);
      case IgnoredBookField(_) => PatchBookFailsIffInvalidGenre(b, patch[1..]);
    }
  }

  /**
   * The partial update: when the first invalid genre sits at position `j`, the
   * fields given before it stay written, nothing after it is applied, and the
   * call reports InvalidGenre.
   */
  lemma {:induction false} PatchBookStopsAtInvalidGenre(b: Book, patch: seq<BookField>, j: nat)
    requires InvalidGenreAt(patch, j)
    requires forall k :: 0 <= k < j ==> !InvalidGenreAt(patch, k)
    ensures PatchBook(b, patch[..j]).outcome == Ok
    ensures PatchBook(b, patch) == Patched(Fail(InvalidGenre), PatchBook(b, patch[..j]).book)
    decreases j
  {
    if j > 0 {
      assert !InvalidGenreAt(patch, 0);
      assert patch[..j][0] == patch[0] && patch[..j][1..] == patch[1..][..j - 1];
      assert forall k :: 0 <= k < j - 1 ==> (InvalidGenreAt(patch[1..], k) <==> InvalidGenreAt(patch, k + 1));
      match patch[0]
      case SetTitle(t) => PatchBookStopsAtInvalidGenre(b.(title := t), patch[1..], j - 1);
      case SetAuthor(a) => PatchBookStopsAtInvalidGenre(b.(author := a), patch[1..], j - 1);
      case SetGenre(g) => PatchBookStopsAtInvalidGenre(b.(genre := g), patch[1..], j - 1);
      case SetTotalCopies(n) => PatchBookStopsAtInvalidGenre(b.(totalCopies := n), patch[1..], j - 1);
      case IgnoredBookField(_) => PatchBookStopsAtInvalidGenre(b, patch[1..], j - 1);
    }
  }

  /** Both entries name the same field of a book. */
  predicate SameBookField(f: BookField, g: BookField)
  {
    (f.SetTitle? && g.SetTitle?) || (f.SetAuthor? && g.SetAuthor?)
    || (f.SetGenre? && g.SetGenre?) || (f.SetTotalCopies? && g.SetTotalCopies?)
  }

  /** The book holds the value the entry gives (an ignored key gives none). */
  predicate BookShows(b: Book, f: BookField)
  {
    match f
    case SetTitle(t) => b.title == t
    case SetAuthor(a) => b.author == a
    case SetGenre(g) => b.genre == g
    case SetTotalCopies(n) => b.totalCopies == n
    case IgnoredBookField(_) => true
  }

  /**
   * Entry `j` writes a field, the walk reaches it (no invalid genre up to and
   * including it), and no later entry names the same field.
   */
  predicate LastBookWrite(patch: seq<BookField>, j: int)
  {
    && 0 <= j < |patch| && !patch[j].IgnoredBookField?
    && (forall k :: 0 <= k <= j ==> !InvalidGenreAt(patch, k))
    && (forall k :: j < k < |patch| ==> !SameBookField(patch[k], patch[j]))
  }

  /** The last write the walk reaches decides the field: the record ends with the value given. */
  lemma {:induction false} PatchBookLastWriteWins(b: Book, patch: seq<BookField>, j: int)
    requires LastBookWrite(patch, j)
    ensures BookShows(PatchBook(b, patch).book, patch[j])
    decreases |patch|
  {
    var rest := patch[1..];
    if j == 0 {
      assert forall k :: 0 <= k < |rest| ==> !SameBookField(rest[k], patch[0]);
      if patch[0].SetTitle? {
        assert forall k :: 0 <= k < |rest| ==> !rest[k].SetTitle?;
      } else if patch[0].SetAuthor? {
        assert forall k :: 0 <= k < |rest| ==> !rest[k].SetAuthor?;
      } else if patch[0].SetGenre? {
        assert !InvalidGenreAt(patch, 0);
        assert forall k :: 0 <= k < |rest| ==> !rest[k].SetGenre?;
      } else {
        assert forall k :: 0 <= k < |rest| ==> !rest[k].SetTotalCopies?;
      }
    } else {
      assert !InvalidGenreAt(patch, 0);
      assert forall k :: 0 <= k < |rest| ==> (InvalidGenreAt(rest, k) <==> InvalidGenreAt(patch, k + 1));
      assert LastBookWrite(rest, j - 1);
      match patch[0]
      case SetTitle(t) => PatchBookLastWriteWins(b.(title := t), rest, j - 1);
      case SetAuthor(a) => PatchBookLastWriteWins(b.(author := a), rest, j - 1);
      case SetGenre(g) => PatchBookLastWriteWins(b.(genre := g), rest, j - 1);
      case SetTotalCopies(n) => PatchBookLastWriteWins(b.(totalCopies := n), rest, j - 1);
      case IgnoredBookField(_) => PatchBookLastWriteWins(b, rest, j - 1);
    }
  }

  /**
   * `update_book`: an unknown ISBN fails and changes nothing. Otherwise only that
   * entry can change; its shelf count and borrower list never do (so setting
   * `total_copies` leaves `available_copies` as it was); and the call fails
   * exactly when some keyword argument is an invalid genre.
   */
  lemma UpdateBookContract(c: Catalog, isbn: string, patch: seq<BookField>)
    ensures var s := UpdateBook(c, isbn, patch);
      && (isbn !in c.books ==> s == Step(Fail(BookNotFound), c))
      && (isbn in c.books ==>
            && (s.outcome.Fail? <==> exists j :: InvalidGenreAt(patch, j))
            && s.outcome in {Ok, Fail(InvalidGenre)}
            && s.after.books.Keys == c.books.Keys
            && (forall k :: k in c.books && k != isbn ==> s.after.books[k] == c.books[k])
            && s.after.books[isbn].availableCopies == c.books[isbn].availableCopies
            && s.after.books[isbn].borrowedBy == c.books[isbn].borrowedBy
            && (forall j :: LastBookWrite(patch, j) ==> BookShows(s.after.books[isbn], patch[j]))
            && s.after.order == c.order
            && s.after.members == c.members)
  {
    if isbn in c.books {
      PatchBookKeepsCirculation(c.books[isbn], patch);
      PatchBookFailsIffInvalidGenre(c.books[isbn], patch);
      forall j | LastBookWrite(patch, j)
        ensures BookShows(PatchBook(c.books[isbn], patch).book, patch[j])
      {
        PatchBookLastWriteWins(c.books[isbn], patch, j);
      }
    }
  }

  /**
   * `update_book(isbn, total_copies=n)` on a known book succeeds and rewrites
   * that one field only. The shelf count is not adjusted, so a total lowered
   * below it leaves more copies on the shelf than the book has in all.
   */
  lemma SetTotalCopiesOnly(c: Catalog, isbn: string, n: int)
    requires isbn in c.books
    ensures var s := UpdateBook(c, isbn, [SetTotalCopies(n)]);
      && s.outcome == Ok
      && s.after == c.(books := c.books[isbn := c.books[isbn].(totalCopies := n)])
      && (n < c.books[isbn].availableCopies ==>
            s.after.books[isbn].availableCopies > s.after.books[isbn].totalCopies)
  {
    var b := c.books[isbn];
    assert [SetTotalCopies(n)][1..] == [];
    assert PatchBook(b, [SetTotalCopies(n)]) == Patched(Ok, b.(totalCopies := n));
  }

  /**
   * `delete_book`: fails on an unknown ISBN, then on a book somebody holds, and
   * changes nothing when it fails. A success removes exactly that entry. In a
   * consistent state the removed book is held by no member.
   */
  lemma DeleteBookContract(c: Catalog, isbn: string)
    requires Inv(c)
    ensures var s := DeleteBook(c, isbn);
      && (isbn !in c.books ==> s.outcome == Fail(BookNotFound))
      && (isbn in c.books && |c.books[isbn].borrowedBy| > 0 ==> s.outcome == Fail(BookHasBorrows))
      && (s.outcome == Ok <==> isbn in c.books && c.books[isbn].borrowedBy == [])
      && (s.outcome.Fail? ==> s.after == c)
      && (s.outcome == Ok ==>
            && s.after.books == c.books - {isbn}
            && (exists k :: 0 <= k < |c.order| && c.order[k] == isbn
                            && s.after.order == c.order[..k] + c.order[k + 1..])
            && (forall k :: k in s.after.order <==> k in c.order && k != isbn)
            && s.after.members == c.members
            && (forall i :: 0 <= i < |c.members| ==> isbn !in c.members[i].borrowedBooks))
  {
    if DeleteBook(c, isbn).outcome == Ok {
      RemoveFirstDistinct(c.order, isbn);
      var k :| 0 <= k < |c.order| && c.order[k] == isbn;
      RemoveFirstAt(c.order, isbn, k);
    }
  }

  // ---------------------------------------------------------------------------
  // Members: add, update, delete

  /**
   * `add_member`: fails, changing nothing, when some member already has the id;
   * otherwise appends exactly one member with nothing borrowed, so ids stay unique.
   */
  lemma AddMemberContract(c: Catalog, memberId: string, name: string, email: string)
    ensures var s := AddMember(c, memberId, name, email);
      && (s.outcome == Ok <==> forall i :: 0 <= i < |c.members| ==> c.members[i].memberId != memberId)
      && (s.outcome.Fail? ==> s == Step(Fail(DuplicateMemberId), c))
      && (s.outcome == Ok ==>
            && s.after.members == c.members + [Member(memberId, name, email, [])]
            && s.after.books == c.books && s.after.order == c.order)
      && (UniqueIds(c.members) ==> UniqueIds(s.after.members))
  {
  }

  /** Both entries name the same field of a member. */
  predicate SameMemberField(f: MemberField, g: MemberField)
  {
    (f.SetName? && g.SetName?) || (f.SetEmail? && g.SetEmail?)
  }

  /** The member holds the value the entry gives (an ignored key gives none). */
  predicate MemberShows(m: Member, f: MemberField)
  {
    match f
    case SetName(n) => m.name == n
    case SetEmail(e) => m.email == e
    case IgnoredMemberField(_) => true
  }

  /** Entry `j` writes a field and no later entry names the same field. */
  predicate LastMemberWrite(patch: seq<MemberField>, j: int)
  {
    && 0 <= j < |patch| && !patch[j].IgnoredMemberField?
    && (forall k :: j < k < |patch| ==> !SameMemberField(patch[k], patch[j]))
  }

  /** The last write to a field decides it: the member ends with the name or email given. */
  lemma {:induction false} PatchMemberLastWriteWins(m: Member, patch: seq<MemberField>, j: int)
    requires LastMemberWrite(patch, j)
    ensures MemberShows(PatchMember(m, patch), patch[j])
    decreases |patch|
  {
    var rest := patch[1..];
    if j == 0 {
      assert forall k :: 0 <= k < |rest| ==> !SameMemberField(rest[k], patch[0]);
      if patch[0].SetName? {
        assert forall k :: 0 <= k < |rest| ==> !rest[k].SetName?;
      } else {
        assert forall k :: 0 <= k < |rest| ==> !rest[k].SetEmail?;
      }
    } else {
      assert LastMemberWrite(rest, j - 1);
      match patch[0]
      case SetName(n) => PatchMemberLastWriteWins(m.(name := n), rest, j - 1);
      case SetEmail(e) => PatchMemberLastWriteWins(m.(email := e), rest, j - 1);
      case IgnoredMemberField(_) => PatchMemberLastWriteWins(m, rest, j - 1);
    }
  }

  /**
   * `update_member`: an unknown id fails and changes nothing; otherwise it
   * succeeds and changes only that member's name and email, never its id or
   * its borrowed list.
   */
  lemma UpdateMemberContract(c: Catalog, memberId: string, patch: seq<MemberField>)
    ensures var s := UpdateMember(c, memberId, patch);
      && (IndexOf(c.members, memberId).None? ==> s == Step(Fail(MemberNotFound), c))
      && (IndexOf(c.members, memberId).Some? ==>
            var i := IndexOf(c.members, memberId).value;
            && s.outcome == Ok
            && |s.after.members| == |c.members|
            && s.after.members[i].memberId == memberId
            && s.after.members[i].borrowedBooks == c.members[i].borrowedBooks
            && (forall j :: 0 <= j < |c.members| && j != i ==> s.after.members[j] == c.members[j])
            && (forall j :: LastMemberWrite(patch, j) ==> MemberShows(s.after.members[i], patch[j]))
            && s.after.books == c.books && s.after.order == c.order)
  {
    if IndexOf(c.members, memberId).Some? {
      var m := c.members[IndexOf(c.members, memberId).value];
      PatchMemberKeepsIdentity(m, patch);
      forall j | LastMemberWrite(patch, j)
        ensures MemberShows(PatchMember(m, patch), patch[j])
      {
        PatchMemberLastWriteWins(m, patch, j);
      }
    }
  }

  /**
   * `delete_member`: fails on an unknown id, then on a member still holding
   * books, and changes nothing when it fails. A success removes exactly that
   * member, keeping the others in order; no member with the id remains.
   */
  lemma DeleteMemberContract(c: Catalog, memberId: string)
    requires UniqueIds(c.members)
    ensures var s := DeleteMember(c, memberId);
      && (IndexOf(c.members, memberId).None? ==> s.outcome == Fail(MemberNotFound))
      && (s.outcome.Fail? ==> s.after == c)
      && (s.outcome == Ok <==>
            exists i :: 0 <= i < |c.members| && c.members[i].memberId == memberId
                        && c.members[i].borrowedBooks == [])
      && (IndexOf(c.members, memberId).Some? ==>
            var i := IndexOf(c.members, memberId).value;
            && (c.members[i].borrowedBooks != [] ==> s.outcome == Fail(MemberHasBorrows))
            && (s.outcome == Ok ==> s.after.members == c.members[..i] + c.members[i + 1..]))
      && (s.outcome == Ok ==>
            && |s.after.members| == |c.members| - 1
            && (forall j :: 0 <= j < |s.after.members| ==> s.after.members[j].memberId != memberId)
            && s.after.books == c.books && s.after.order == c.order)
  {
    var s := DeleteMember(c, memberId);
    if s.outcome == Ok {
      var i := IndexOf(c.members, memberId).value;
      var ms' := s.after.members;
      assert forall j :: 0 <= j < |ms'| ==> ms'[j] == (if j < i then c.members[j] else c.members[j + 1]);
    }
  }

  // ---------------------------------------------------------------------------
  // Borrow and return

  /**
   * `borrow_book` checks, in this order: the member exists, the book exists,
   * the member holds fewer than three books, a copy is on the shelf, the member
   * does not already hold the ISBN. The first failing check decides the error,
   * and a failure changes nothing.
   */
  lemma BorrowChecksInOrder(c: Catalog, memberId: string, isbn: string)
    ensures var s := BorrowBook(c, memberId, isbn);
      var found := IndexOf(c.members, memberId);
      && (found.None? ==> s.outcome == Fail(MemberNotFound))
      && (found.Some? ==>
            var m := c.members[found.value];
            && (isbn !in c.books ==> s.outcome == Fail(BookNotFound))
            && (isbn in c.books && |m.borrowedBooks| >= BorrowLimit ==> s.outcome == Fail(LimitReached))
            && ((isbn in c.books && |m.borrowedBooks| < BorrowLimit && c.books[isbn].availableCopies <= 0)
                ==> s.outcome == Fail(NoCopies))
            && ((isbn in c.books && |m.borrowedBooks| < BorrowLimit && c.books[isbn].availableCopies > 0
                 && isbn in m.borrowedBooks)
                ==> s.outcome == Fail(AlreadyBorrowed))
            && (s.outcome == Ok <==>
                  isbn in c.books && |m.borrowedBooks| < BorrowLimit
                  && c.books[isbn].availableCopies > 0 && isbn !in m.borrowedBooks))
      && (s.outcome.Fail? ==> s.after == c)
  {
  }

  /**
   * A successful `borrow_book` does exactly three things: appends the ISBN to
   * the member's list, appends the member id to the book's borrowers, and takes
   * one copy off the shelf. Afterwards the member holds at most three books,
   * and the shelf count, positive before, is not negative.
   */
  lemma BorrowEffect(c: Catalog, memberId: string, isbn: string)
    requires BorrowBook(c, memberId, isbn).outcome == Ok
    ensures IndexOf(c.members, memberId).Some? && isbn in c.books
    ensures var c' := BorrowBook(c, memberId, isbn).after;
      var i := IndexOf(c.members, memberId).value;
      var m, b := c.members[i], c.books[isbn];
      && c'.members == c.members[i := m.(borrowedBooks := m.borrowedBooks + [isbn])]
      && c'.books == c.books[isbn := b.(borrowedBy := b.borrowedBy + [memberId],
                                          availableCopies := b.availableCopies - 1)]
      && c'.order == c.order
      && |c'.members[i].borrowedBooks| <= BorrowLimit
      && c'.books[isbn].availableCopies >= 0
      && Stock(c'.books[isbn]) == Stock(b)
  {
  }

  /**
   * `return_book` fails, changing nothing, on an unknown member, then an unknown
   * book, then an ISBN the member does not hold; it succeeds otherwise.
   */
  lemma ReturnChecksInOrder(c: Catalog, memberId: string, isbn: string)
    ensures var s := ReturnBook(c, memberId, isbn);
      var found := IndexOf(c.members, memberId);
      && (found.None? ==> s.outcome == Fail(MemberNotFound))
      && (found.Some? && isbn !in c.books ==> s.outcome == Fail(BookNotFound))
      && (found.Some? && isbn in c.books ==>
            (s.outcome == Ok <==> isbn in c.members[found.value].borrowedBooks)
            && (s.outcome.Fail? ==> s.outcome == Fail(NotBorrowed)))
      && (s.outcome.Fail? ==> s.after == c)
  {
  }

  /**
   * A successful `return_book` in a consistent state finds the member among the
   * book's borrowers (so the source's `remove` never raises), and undoes the
   * holding on both sides: the ISBN leaves the member's list, the id leaves the
   * book's borrowers, and one copy goes back on the shelf.
   */
  lemma ReturnEffect(c: Catalog, memberId: string, isbn: string)
    requires Inv(c)
    requires ReturnBook(c, memberId, isbn).outcome == Ok
    ensures IndexOf(c.members, memberId).Some? && isbn in c.books
    ensures memberId in c.books[isbn].borrowedBy
    ensures var c' := ReturnBook(c, memberId, isbn).after;
      var i := IndexOf(c.members, memberId).value;
      && |c'.members| == |c.members|
      && (forall j :: 0 <= j < |c.members| && j != i ==> c'.members[j] == c.members[j])
      && (forall k :: k in c'.members[i].borrowedBooks <==> k in c.members[i].borrowedBooks && k != isbn)
      && |c'.members[i].borrowedBooks| == |c.members[i].borrowedBooks| - 1
      && c'.books.Keys == c.books.Keys
      && (forall k :: k in c.books && k != isbn ==> c'.books[k] == c.books[k])
      && (forall id :: id in c'.books[isbn].borrowedBy <==> id in c.books[isbn].borrowedBy && id != memberId)
      && c'.books[isbn].availableCopies == c.books[isbn].availableCopies + 1
      && Stock(c'.books[isbn]) == Stock(c.books[isbn])
  ensures var c' := ReturnBook(c, memberId, isbn).after;
      var i := IndexOf(c.members, memberId).value;
      var held, holders := c.members[i].borrowedBooks, c.books[isbn].borrowedBy;
      && c'.order == c.order
      && c'.members[i] == c.members[i].(borrowedBooks := c'.members[i].borrowedBooks)
      && c'.books[isbn] == c.books[isbn].(borrowedBy := c'.books[isbn].borrowedBy,
                                          availableCopies := c.books[isbn].availableCopies + 1)
      && (exists k :: 0 <= k < |held| && held[k] == isbn && c'.members[i].borrowedBooks == held[..k] + held[k + 1..])
      && (exists k :: 0 <= k < |holders| && holders[k] == memberId
                      && c'.books[isbn].borrowedBy == holders[..k] + holders[k + 1..])
  {
    var i := IndexOf(c.members, memberId).value;
    RemoveFirstDistinct(c.members[i].borrowedBooks, isbn);
    RemoveFirstDistinct(c.books[isbn].borrowedBy, memberId);
    ReturnUnfolds(c, i, memberId, isbn);
    RemoveFirstSomewhere(c.members[i].borrowedBooks, isbn);
    RemoveFirstSomewhere(c.books[isbn].borrowedBy, memberId);
  }

  /** In a list without repeats, `remove` drops the item at the one position where it stands. */
  lemma RemoveFirstSomewhere(s: seq<string>, x: string)
    requires Distinct(s) && x in s
    ensures exists k :: 0 <= k < |s| && s[k] == x && RemoveFirst(s, x) == s[..k] + s[k + 1..]
  {
    var k :| 0 <= k < |s| && s[k] == x;
    assert x !in s[..k];
    RemoveFirstAt(s, x, k);
  }

  /** A successful borrow followed by the matching return restores the whole catalog. */
  lemma BorrowThenReturn(c: Catalog, memberId: string, isbn: string)
    requires Inv(c)
    requires BorrowBook(c, memberId, isbn).outcome == Ok
    ensures ReturnBook(BorrowBook(c, memberId, isbn).after, memberId, isbn) == Step(Ok, c)
  {
    BorrowEffect(c, memberId, isbn);
    var i := IndexOf(c.members, memberId).value;
    var m, b := c.members[i], c.books[isbn];
    NonHolderNotListed(c, i, isbn);
    var m' := m.(borrowedBooks := m.borrowedBooks + [isbn]);
    var b' := b.(borrowedBy := b.borrowedBy + [memberId], availableCopies := b.availableCopies - 1);
    var c' := c.(members := c.members[i := m'], books := c.books[isbn := b']);
    BorrowUnfolds(c, i, memberId, isbn);
    ReturnUndoesLending(c, i, memberId, isbn, m', b');
  }

  /** Under the invariant, a member who does not hold a book is not among its borrowers. */
  lemma NonHolderNotListed(c: Catalog, i: nat, isbn: string)
    requires Inv(c)
    requires i < |c.members| && isbn in c.books && isbn !in c.members[i].borrowedBooks
    ensures c.members[i].memberId !in c.books[isbn].borrowedBy
  {
  }

  /** Removing the entries a lending appended gives back the lists as they were. */
  lemma ReturnUndoesLending(c: Catalog, i: nat, memberId: string, isbn: string, m': Member, b': Book)
    requires IndexOf(c.members, memberId) == Some(i) && isbn in c.books
    requires isbn !in c.members[i].borrowedBooks && memberId !in c.books[isbn].borrowedBy
    requires m' == c.members[i].(borrowedBooks := c.members[i].borrowedBooks + [isbn])
    requires b' == c.books[isbn].(borrowedBy := c.books[isbn].borrowedBy + [memberId],
                                  availableCopies := c.books[isbn].availableCopies - 1)
    ensures ReturnBook(c.(members := c.members[i := m'], books := c.books[isbn := b']), memberId, isbn)
            == Step(Ok, c)
  {
    var c' := c.(members := c.members[i := m'], books := c.books[isbn := b']);
    IndexOfAfterUpdate(c.members, i, m', memberId);
    ReturnUnfolds(c', i, memberId, isbn);
    LoanRecordsRestored(c, i, memberId, isbn, m', b');
  }

  /** Reversing both halves of a loan gives back the catalogue the loan started from. */
  lemma LoanRecordsRestored(c: Catalog, i: nat, memberId: string, isbn: string, m': Member, b': Book)
    requires i < |c.members| && isbn in c.books
    requires isbn !in c.members[i].borrowedBooks && memberId !in c.books[isbn].borrowedBy
    requires m' == c.members[i].(borrowedBooks := c.members[i].borrowedBooks + [isbn])
    requires b' == c.books[isbn].(borrowedBy := c.books[isbn].borrowedBy + [memberId],
                                  availableCopies := c.books[isbn].availableCopies - 1)
    ensures
      var c' := c.(members := c.members[i := m'], books := c.books[isbn := b']);
      var m, b := c'.members[i], c'.books[isbn];
      c'.(members := c'.members[i := m.(borrowedBooks := RemoveFirst(m.borrowedBooks, isbn))],
          books := c'.books[isbn := b.(borrowedBy := RemoveFirst(b.borrowedBy, memberId),
                                       availableCopies := b.availableCopies + 1)]) == c
  {
    MembersRestored(c.members, i, isbn, m');
    BooksRestored(c.books, isbn, memberId, b');
  }

  /** The member list half of `LoanRecordsRestored`. */
  lemma MembersRestored(ms: seq<Member>, i: nat, isbn: string, m': Member)
    requires i < |ms| && isbn !in ms[i].borrowedBooks
    requires m' == ms[i].(borrowedBooks := ms[i].borrowedBooks + [isbn])
    ensures ms[i := m'][i := m'.(borrowedBooks := RemoveFirst(m'.borrowedBooks, isbn))] == ms
  {
    MemberRecordRestored(ms[i], isbn);
    assert ms[i := m'][i := ms[i]] == ms;
  }

  /** The book map half of `LoanRecordsRestored`. */
  lemma BooksRestored(books: map<string, Book>, isbn: string, memberId: string, b': Book)
    requires isbn in books && memberId !in books[isbn].borrowedBy
    requires b' == books[isbn].(borrowedBy := books[isbn].borrowedBy + [memberId],
                                availableCopies := books[isbn].availableCopies - 1)
    ensures books[isbn := b'][isbn := b'.(borrowedBy := RemoveFirst(b'.borrowedBy, memberId),
                                          availableCopies := b'.availableCopies + 1)] == books
  {
    BookRecordRestored(books[isbn], memberId);
    assert books[isbn := b'][isbn := books[isbn]] == books;
  }

  /** The member half of a loan, undone by the member half of a return. */
  lemma MemberRecordRestored(m: Member, isbn: string)
    requires isbn !in m.borrowedBooks
    ensures var m' := m.(borrowedBooks := m.borrowedBooks + [isbn]);
      m'.(borrowedBooks := RemoveFirst(m'.borrowedBooks, isbn)) == m
  {
    RemoveFirstAppended(m.borrowedBooks, isbn);
  }

  /** The book half of a loan, undone by the book half of a return. */
  lemma BookRecordRestored(b: Book, memberId: string)
    requires memberId !in b.borrowedBy
    ensures var b' := b.(borrowedBy := b.borrowedBy + [memberId], availableCopies := b.availableCopies - 1);
      b'.(borrowedBy := RemoveFirst(b'.borrowedBy, memberId), availableCopies := b'.availableCopies + 1) == b
  {
    RemoveFirstAppended(b.borrowedBy, memberId);
  }

  /** A borrow that passes its checks, written out. */
  lemma BorrowUnfolds(c: Catalog, i: nat, memberId: string, isbn: string)
    requires IndexOf(c.members, memberId) == Some(i) && isbn in c.books
    requires |c.members[i].borrowedBooks| < BorrowLimit && c.books[isbn].availableCopies > 0
    requires isbn !in c.members[i].borrowedBooks
    ensures
      var m, b := c.members[i], c.books[isbn];
      BorrowBook(c, memberId, isbn)
      == Step(Ok, c.(members := c.members[i := m.(borrowedBooks := m.borrowedBooks + [isbn])],
                     books := c.books[isbn := b.(borrowedBy := b.borrowedBy + [memberId],
                                                  availableCopies := b.availableCopies - 1)]))
  {
  }

  /** A return that passes its checks, written out. */
  lemma ReturnUnfolds(c: Catalog, i: nat, memberId: string, isbn: string)
    requires IndexOf(c.members, memberId) == Some(i) && isbn in c.books
    requires isbn in c.members[i].borrowedBooks
    ensures
      var m, b := c.members[i], c.books[isbn];
      ReturnBook(c, memberId, isbn)
      == Step(Ok, c.(members := c.members[i := m.(borrowedBooks := RemoveFirst(m.borrowedBooks, isbn))],
                     books := c.books[isbn := b.(borrowedBy := RemoveFirst(b.borrowedBy, memberId),
                                                  availableCopies := b.availableCopies + 1)]))
  {
  }

  // ---------------------------------------------------------------------------
  // Properties of every operation

  /** Every failure except that of `update_book` leaves the whole state as it was. */
  lemma FailureChangesNothing(c: Catalog, op: Op)
    requires !op.UpdateBookOp?
    ensures Apply(c, op).outcome.Fail? ==> Apply(c, op).after == c
  {
  }

  /**
   * No operation changes the copies in circulation (on the shelf plus lent
   * out) of a book that exists before and after it; a freshly added book
   * starts with its total.
   */
  lemma StockConserved(c: Catalog, op: Op)
    requires Inv(c)
    ensures var c' := Apply(c, op).after;
      forall isbn :: isbn in c.books && isbn in c'.books ==> Stock(c'.books[isbn]) == Stock(c.books[isbn])
    ensures op.AddBookOp? && Apply(c, op).outcome == Ok ==>
      Stock(Apply(c, op).after.books[op.isbn]) == op.totalCopies
  {
    match op
    case UpdateBookOp(isbn, patch) =>
      if isbn in c.books { PatchBookKeepsCirculation(c.books[isbn], patch); }
    case ReturnOp(id, isbn) => ReturnConservesStock(c, id, isbn);
    case _ =>
  }

  /** The return case of `StockConserved`: the copy moves from the borrowers back to the shelf. */
  lemma ReturnConservesStock(c: Catalog, memberId: string, isbn: string)
    requires Inv(c)
    ensures var c' := ReturnBook(c, memberId, isbn).after;
      forall k :: k in c.books && k in c'.books ==> Stock(c'.books[k]) == Stock(c.books[k])
  {
    if ReturnBook(c, memberId, isbn).outcome == Ok {
      ReturnEffect(c, memberId, isbn);
    }
  }

  /**
   * The shelf count never goes negative from a non-negative start, provided
   * every book was added with a non-negative total (the source never checks it).
   */
  lemma AvailabilityStaysNonNegative(c: Catalog, op: Op)
    requires forall k :: k in c.books ==> c.books[k].availableCopies >= 0
    requires op.AddBookOp? ==> op.totalCopies >= 0
    ensures var c' := Apply(c, op).after;
      forall k :: k in c'.books ==> c'.books[k].availableCopies >= 0
  {
    match op
    case UpdateBookOp(isbn, patch) =>
      if isbn in c.books { PatchBookKeepsCirculation(c.books[isbn], patch); }
    case _ =>
  }

  /**
   * `get_member_borrowed_books` in a consistent state: an ISBN is listed exactly
   * when that book names the member among its borrowers; an unknown id gives `[]`.
   */
  lemma BorrowedBooksAgreeWithBorrowers(c: Catalog, memberId: string)
    requires Inv(c)
    ensures IndexOf(c.members, memberId).None? ==> MemberBorrowedBooks(c, memberId) == []
    ensures forall isbn :: isbn in MemberBorrowedBooks(c, memberId) <==>
      isbn in c.books && memberId in c.books[isbn].borrowedBy
  {
    forall isbn | isbn in c.books && memberId in c.books[isbn].borrowedBy
      ensures isbn in MemberBorrowedBooks(c, memberId)
    {
      var j :| 0 <= j < |c.members| && c.members[j].memberId == memberId && isbn in c.members[j].borrowedBooks;
      IndexOfUnique(c.members, j);
    }
  }

  // ---------------------------------------------------------------------------
  // Search

  /** Every pair `search_books` returns is a catalog entry that matches. */
  lemma {:induction false} SearchSound(books: map<string, Book>, keys: seq<string>, searchBy: string,
                                       keyword: string)
    requires forall k :: k in keys ==> k in books
    ensures forall p :: p in Search(books, keys, searchBy, keyword) ==>
      p.0 in keys && p.1 == books[p.0] && Matches(p.1, searchBy, keyword)
    decreases |keys|
  {
    if keys != [] {
      SearchSound(books, keys[..|keys| - 1], searchBy, keyword);
    }
  }

  /** Every matching entry among the keys is returned. */
  lemma {:induction false} SearchComplete(books: map<string, Book>, keys: seq<string>, searchBy: string,
                                          keyword: string)
    requires forall k :: k in keys ==> k in books
    ensures forall k :: k in keys && Matches(books[k], searchBy, keyword) ==>
      (k, books[k]) in Search(books, keys, searchBy, keyword)
    decreases |keys|
  {
    if keys != [] {
      var n := |keys| - 1;
      SearchComplete(books, keys[..n], searchBy, keyword);
      assert forall k :: k in keys ==> k in keys[..n] || k == keys[n];
    }
  }

  /** A `search_by` other than `'title'` or `'author'` finds nothing. */
  lemma {:induction false} SearchUnknownField(books: map<string, Book>, keys: seq<string>, searchBy: string,
                                              keyword: string)
    requires forall k :: k in keys ==> k in books
    requires searchBy != "title" && searchBy != "author"
    ensures Search(books, keys, searchBy, keyword) == []
    decreases |keys|
  {
    if keys != [] {
      SearchUnknownField(books, keys[..|keys| - 1], searchBy, keyword);
    }
  }

  lemma LowerIdempotent(s: string)
    ensures Lower(Lower(s)) == Lower(s)
  {
  }

  /** `a` occurs in `keys` at an earlier position than `b`. */
  ghost predicate Before(keys: seq<string>, a: string, b: string)
  {
    exists p, q :: 0 <= p < q < |keys| && keys[p] == a && keys[q] == b
  }

  /** The pairs come back in the order of `keys`: an earlier pair names an earlier key. */
  lemma {:induction false} SearchInOrder(books: map<string, Book>, keys: seq<string>, searchBy: string,
                                         keyword: string)
    requires forall k :: k in keys ==> k in books
    ensures forall i, j :: 0 <= i < j < |Search(books, keys, searchBy, keyword)| ==>
      Before(keys, Search(books, keys, searchBy, keyword)[i].0, Search(books, keys, searchBy, keyword)[j].0)
    decreases |keys|
  {
    if keys != [] {
      var n := |keys| - 1;
      var front := keys[..n];
      var r0 := Search(books, front, searchBy, keyword);
      var r := Search(books, keys, searchBy, keyword);
      SearchInOrder(books, front, searchBy, keyword);
      SearchSound(books, front, searchBy, keyword);
      forall i, j | 0 <= i < j < |r|
        ensures Before(keys, r[i].0, r[j].0)
      {
        assert r[i] == r0[i];
        if j < |r0| {
          assert r[j] == r0[j];
          assert Before(front, r0[i].0, r0[j].0);
          var p, q :| 0 <= p < q < |front| && front[p] == r0[i].0 && front[q] == r0[j].0;
          assert keys[p] == r[i].0 && keys[q] == r[j].0;
        } else {
          assert r[j].0 == keys[n];
          assert r0[i] in r0;
          var p :| 0 <= p < |front| && front[p] == r0[i].0;
          assert keys[p] == r[i].0;
        }
      }
    }
  }

  /** Over distinct keys, such as the iteration order, each key comes back at most once. */
  lemma SearchOncePerKey(books: map<string, Book>, keys: seq<string>, searchBy: string, keyword: string)
    requires forall k :: k in keys ==> k in books
    requires Distinct(keys)
    ensures var r := Search(books, keys, searchBy, keyword);
      forall i, j :: 0 <= i < j < |r| ==> r[i].0 != r[j].0
  {
    var r := Search(books, keys, searchBy, keyword);
    SearchInOrder(books, keys, searchBy, keyword);
    forall i, j | 0 <= i < j < |r|
      ensures r[i].0 != r[j].0
    {
      assert Before(keys, r[i].0, r[j].0);
    }
  }

  /** Searching is case-insensitive in the keyword: a keyword and its lower-cased form find the same. */
  lemma {:induction false} SearchIgnoresKeywordCase(books: map<string, Book>, keys: seq<string>,
                                                    searchBy: string, keyword: string)
    requires forall k :: k in keys ==> k in books
    ensures Search(books, keys, searchBy, Lower(keyword)) == Search(books, keys, searchBy, keyword)
    decreases |keys|
  {
    if keys != [] {
      LowerIdempotent(keyword);
      SearchIgnoresKeywordCase(books, keys[..|keys| - 1], searchBy, keyword);
    }
  }
}
