/**
 * The catalog as a value and every operation as a function from the state
 * before to an outcome and the state after. These functions are the
 * specification the imperative `Library` class is proved against, and the
 * objects of the lemmas in `CatalogLemmas`.
 */
module CatalogSpec {
  import opened LibraryTypes

  /**
   * The whole process-wide state: the `books` dictionary, the order in which
   * its keys iterate (insertion order, as for a Python dict), and the
   * `members` list.
   */
  datatype Catalog = Catalog(books: map<string, Book>, order: seq<string>, members: seq<Member>)

  /** The state at start-up: no books, no members. */
  const Empty: Catalog := Catalog(map[], [], [])

  /** What an operation returns, together with the state it leaves behind. */
  datatype Step = Step(outcome: Outcome, after: Catalog)

  // ---------------------------------------------------------------------------
  // Sequence helpers

  predicate Distinct(s: seq<string>)
  {
    forall i, j :: 0 <= i < j < |s| ==> s[i] != s[j]
  }

  /** Python's `list.remove(x)` for an `x` that may be absent: drops the first occurrence. */
  function RemoveFirst(s: seq<string>, x: string): (r: seq<string>)
    ensures x in s ==> |r| == |s| - 1
    ensures x !in s ==> r == s
  {
    if s == [] then []
    else if s[0] == x then s[1..]
    else [s[0]] + RemoveFirst(s[1..], x)
  }

  // ---------------------------------------------------------------------------
  // Member lookup: the first member whose id matches, as the source's scans find it

  function IndexOf(ms: seq<Member>, memberId: string): (r: Option<nat>)
    ensures r.Some? ==> r.value < |ms| && ms[r.value].memberId == memberId
    ensures r.Some? ==> forall j :: 0 <= j < r.value ==> ms[j].memberId != memberId
    ensures r.None? ==> forall j :: 0 <= j < |ms| ==> ms[j].memberId != memberId
  {
    if ms == [] then None
    else if ms[0].memberId == memberId then Some(0)
    else match IndexOf(ms[1..], memberId)
      case None => None
      case Some(k) => Some(k + 1)
  }

  /** Some member with this id holds this ISBN. */
  predicate Holds(ms: seq<Member>, memberId: string, isbn: string)
  {
    exists i :: 0 <= i < |ms| && ms[i].memberId == memberId && isbn in ms[i].borrowedBooks
  }

  // ---------------------------------------------------------------------------
  // Search

  /** ASCII lower-casing of one character. */
  function LowerChar(c: char): (r: char)
  {
    if 'A' <= c <= 'Z' then (c as int + ('a' as int - 'A' as int)) as char else c
  }

  function Lower(s: string): (r: string)
    ensures |r| == |s|
    ensures forall i :: 0 <= i < |r| ==> !('A' <= r[i] <= 'Z')
  {
    seq(|s|, i requires 0 <= i < |s| => LowerChar(s[i]))
  }

  /** Python's `needle in hay` on strings: `needle` occurs as a contiguous substring. */
  predicate Contains(hay: string, needle: string)
    ensures needle <= hay ==> Contains(hay, needle)
    ensures Contains(hay, needle) ==> |needle| <= |hay|
  {
    assert hay[0..] == hay;
    exists i :: 0 <= i <= |hay| && needle <= hay[i..]
  }

  /** The test `search_books` applies to one book. */
  predicate Matches(b: Book, searchBy: string, keyword: string)
    ensures Matches(b, searchBy, keyword) ==> searchBy == "title" || searchBy == "author"
  {
    (searchBy == "title" && Contains(Lower(b.title), Lower(keyword)))
    || (searchBy == "author" && Contains(Lower(b.author), Lower(keyword)))
  }

  /** The `(isbn, book)` pairs among `keys` that match, in the order of `keys`. */
  function Search(books: map<string, Book>, keys: seq<string>, searchBy: string, keyword: string)
    : (r: seq<(string, Book)>)
    requires forall k :: k in keys ==> k in books
    ensures |r| <= |keys|
  {
    if keys == [] then []
    else
      var k := keys[|keys| - 1];
      Search(books, keys[..|keys| - 1], searchBy, keyword)
      + (if Matches(books[k], searchBy, keyword) then [(k, books[k])] else [])
  }

  // ---------------------------------------------------------------------------
  // Field patches

  /** The result of applying a patch to one record: the outcome and the record as left. */
  datatype Patched = Patched(outcome: Outcome, book: Book)

  /**
   * Applies the keyword arguments of `update_book` one by one. An invalid genre
   * stops the walk with a failure, leaving the fields written before it in place.
   */
  function PatchBook(b: Book, patch: seq<BookField>): (r: Patched)
    ensures (forall j :: 0 <= j < |patch| ==> !patch[j].SetTitle?) ==> r.book.title == b.title
    ensures (forall j :: 0 <= j < |patch| ==> !patch[j].SetAuthor?) ==> r.book.author == b.author
    ensures (forall j :: 0 <= j < |patch| ==> !patch[j].SetGenre?) ==> r.book.genre == b.genre
    ensures (forall j :: 0 <= j < |patch| ==> !patch[j].SetTotalCopies?) ==> r.book.totalCopies == b.totalCopies
    decreases |patch|
  {
    if patch == [] then Patched(Ok, b)
    else match patch[0]
      case SetTitle(t) => PatchBook(b.(title := t), patch[1..])
      case SetAuthor(a) => PatchBook(b.(author := a), patch[1..])
      case SetGenre(g) =>
        if g !in ValidGenres then Patched(Fail(InvalidGenre), b)
        else PatchBook(b.(genre := g), patch[1..])
      case SetTotalCopies(n) => PatchBook(b.(totalCopies := n), patch[1..])
      case IgnoredBookField(_) => PatchBook(b, patch[1..])
  }

  /** Applies the keyword arguments of `update_member` one by one. */
  function PatchMember(m: Member, patch: seq<MemberField>): (r: Member)
    ensures (forall j :: 0 <= j < |patch| ==> !patch[j].SetName?) ==> r.name == m.name
    ensures (forall j :: 0 <= j < |patch| ==> !patch[j].SetEmail?) ==> r.email == m.email
    decreases |patch|
  {
    if patch == [] then m
    else match patch[0]
      case SetName(n) => PatchMember(m.(name := n), patch[1..])
      case SetEmail(e) => PatchMember(m.(email := e), patch[1..])
      case IgnoredMemberField(_) => PatchMember(m, patch[1..])
  }

  // ---------------------------------------------------------------------------
  // The operations

  function AddBook(c: Catalog, isbn: string, title: string, author: string, genre: string,
                   totalCopies: int): (r: Step)
    ensures r.outcome.Fail? ==> r.after == c
    ensures r.outcome == Ok ==> isbn !in c.books && isbn in r.after.books && r.after.members == c.members
  {
    if isbn in c.books then Step(Fail(DuplicateIsbn), c)
    else if genre !in ValidGenres then Step(Fail(InvalidGenre), c)
    else
      var b := Book(title, author, genre, totalCopies, totalCopies, []);
      Step(Ok, c.(books := c.books[isbn := b], order := c.order + [isbn]))
  }

  function UpdateBook(c: Catalog, isbn: string, patch: seq<BookField>): (r: Step)
    ensures r.after.books.Keys == c.books.Keys && r.after.order == c.order && r.after.members == c.members
  {
    if isbn !in c.books then Step(Fail(BookNotFound), c)
    else
      var p := PatchBook(c.books[isbn], patch);
      Step(p.outcome, c.(books := c.books[isbn := p.book]))
  }

  function DeleteBook(c: Catalog, isbn: string): (r: Step)
    ensures r.outcome.Fail? ==> r.after == c
    ensures r.outcome == Ok ==> isbn in c.books && isbn !in r.after.books && r.after.members == c.members
  {
    if isbn !in c.books then Step(Fail(BookNotFound), c)
    else if |c.books[isbn].borrowedBy| > 0 then Step(Fail(BookHasBorrows), c)
    else Step(Ok, c.(books := c.books - {isbn}, order := RemoveFirst(c.order, isbn)))
  }

  function AddMember(c: Catalog, memberId: string, name: string, email: string): (r: Step)
    ensures r.outcome.Fail? ==> r.after == c
    ensures r.after.books == c.books
    ensures r.outcome == Ok ==> |r.after.members| == |c.members| + 1
  {
    if IndexOf(c.members, memberId).Some? then Step(Fail(DuplicateMemberId), c)
    else Step(Ok, c.(members := c.members + [Member(memberId, name, email, [])]))
  }

  function UpdateMember(c: Catalog, memberId: string, patch: seq<MemberField>): (r: Step)
    ensures r.after.books == c.books && |r.after.members| == |c.members|
  {
    match IndexOf(c.members, memberId)
    case None => Step(Fail(MemberNotFound), c)
    case Some(i) =>
      Step(Ok, c.(members := c.members[i := PatchMember(c.members[i], patch)]))
  }

  function DeleteMember(c: Catalog, memberId: string): (r: Step)
    ensures r.outcome.Fail? ==> r.after == c
    ensures r.after.books == c.books
    ensures r.outcome == Ok ==> |r.after.members| == |c.members| - 1
  {
    match IndexOf(c.members, memberId)
    case None => Step(Fail(MemberNotFound), c)
    case Some(i) =>
      if |c.members[i].borrowedBooks| > 0 then Step(Fail(MemberHasBorrows), c)
      else Step(Ok, c.(members := c.members[..i] + c.members[i + 1..]))
  }

  function BorrowBook(c: Catalog, memberId: string, isbn: string): (r: Step)
    ensures r.outcome == Ok ==> IndexOf(c.members, memberId).Some? && isbn in c.books
  {
    match IndexOf(c.members, memberId)
    case None => Step(Fail(MemberNotFound), c)
    case Some(i) =>
      if isbn !in c.books then Step(Fail(BookNotFound), c)
      else
        var m, b := c.members[i], c.books[isbn];
        if |m.borrowedBooks| >= BorrowLimit then Step(Fail(LimitReached), c)
        else if b.availableCopies <= 0 then Step(Fail(NoCopies), c)
        else if isbn in m.borrowedBooks then Step(Fail(AlreadyBorrowed), c)
        else
          var m' := m.(borrowedBooks := m.borrowedBooks + [isbn]);
          var b' := b.(borrowedBy := b.borrowedBy + [memberId],
                       availableCopies := b.availableCopies - 1);
          Step(Ok, c.(members := c.members[i := m'], books := c.books[isbn := b']))
  }

  function ReturnBook(c: Catalog, memberId: string, isbn: string): (r: Step)
    ensures r.outcome == Ok ==> IndexOf(c.members, memberId).Some? && isbn in c.books
  {
    match IndexOf(c.members, memberId)
    case None => Step(Fail(MemberNotFound), c)
    case Some(i) =>
      if isbn !in c.books then Step(Fail(BookNotFound), c)
      else
        var m, b := c.members[i], c.books[isbn];
        if isbn !in m.borrowedBooks then Step(Fail(NotBorrowed), c)
        else
          var m' := m.(borrowedBooks := RemoveFirst(m.borrowedBooks, isbn));
          var b' := b.(borrowedBy := RemoveFirst(b.borrowedBy, memberId),
                       availableCopies := b.availableCopies + 1);
          Step(Ok, c.(members := c.members[i := m'], books := c.books[isbn := b']))
  }

  /** `get_member_borrowed_books`: the member's list, or `[]` for an unknown id. */
  function MemberBorrowedBooks(c: Catalog, memberId: string): (r: seq<string>)
    ensures r != [] ==> exists i :: 0 <= i < |c.members| && c.members[i].memberId == memberId
                                     && r == c.members[i].borrowedBooks
  {
    match IndexOf(c.members, memberId)
    case None => []
    case Some(i) => c.members[i].borrowedBooks
  }

  // ---------------------------------------------------------------------------
  // Any sequence of state-changing calls

  datatype Op =
    | AddBookOp(isbn: string, title: string, author: string, genre: string, totalCopies: int)
    | UpdateBookOp(isbn: string, bookPatch: seq<BookField>)
    | DeleteBookOp(isbn: string)
    | AddMemberOp(memberId: string, name: string, email: string)
    | UpdateMemberOp(memberId: string, memberPatch: seq<MemberField>)
    | DeleteMemberOp(memberId: string)
    | BorrowOp(memberId: string, isbn: string)
    | ReturnOp(memberId: string, isbn: string)

  function Apply(c: Catalog, op: Op): (r: Step)
  {
    match op
    case AddBookOp(isbn, title, author, genre, n) => AddBook(c, isbn, title, author, genre, n)
    case UpdateBookOp(isbn, patch) => UpdateBook(c, isbn, patch)
    case DeleteBookOp(isbn) => DeleteBook(c, isbn)
    case AddMemberOp(id, name, email) => AddMember(c, id, name, email)
    case UpdateMemberOp(id, patch) => UpdateMember(c, id, patch)
    case DeleteMemberOp(id) => DeleteMember(c, id)
    case BorrowOp(id, isbn) => BorrowBook(c, id, isbn)
    case ReturnOp(id, isbn) => ReturnBook(c, id, isbn)
  }

  function Run(c: Catalog, ops: seq<Op>): (r: Catalog)
    decreases |ops|
  {
    if ops == [] then c else Run(Apply(c, ops[0]).after, ops[1..])
  }

  // ---------------------------------------------------------------------------
  // The invariant every reachable state satisfies

  /** `order` lists each key of `books` exactly once. */
  ghost predicate OrderTracksKeys(c: Catalog)
  {
    Distinct(c.order) && forall k :: k in c.order <==> k in c.books
  }

  predicate UniqueIds(ms: seq<Member>)
  {
    forall i, j :: 0 <= i < j < |ms| ==> ms[i].memberId != ms[j].memberId
  }

  /** Every genre is allowed; no list repeats an entry; nobody holds more than the limit. */
  ghost predicate RecordsWellFormed(c: Catalog)
  {
    (forall k :: k in c.books ==> c.books[k].genre in ValidGenres && Distinct(c.books[k].borrowedBy))
    && (forall i :: 0 <= i < |c.members| ==>
          Distinct(c.members[i].borrowedBooks) && |c.members[i].borrowedBooks| <= BorrowLimit)
  }

  /** Every ISBN a member holds names a book that lists the member among its borrowers. */
  ghost predicate MembersToBooks(c: Catalog)
  {
    forall i, isbn :: 0 <= i < |c.members| && isbn in c.members[i].borrowedBooks ==>
      isbn in c.books && c.members[i].memberId in c.books[isbn].borrowedBy
  }

  /** Every borrower a book lists is a member holding that book. */
  ghost predicate BooksToMembers(c: Catalog)
  {
    forall isbn, id :: isbn in c.books && id in c.books[isbn].borrowedBy ==> Holds(c.members, id, isbn)
  }

  ghost predicate Inv(c: Catalog)
  {
    OrderTracksKeys(c) && UniqueIds(c.members) && RecordsWellFormed(c)
    && MembersToBooks(c) && BooksToMembers(c)
  }

  /** The copies of a book in circulation: on the shelf plus lent out. */
  function Stock(b: Book): (r: int)
  {
    b.availableCopies + |b.borrowedBy|
  }
}
