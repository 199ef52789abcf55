/**
 * Values of the lending-library catalog: book and member records, the fixed
 * genre allow-list, the error kinds an operation can report, and the ordered
 * field patches that `update_book` and `update_member` receive as keyword
 * arguments.
 */
module LibraryTypes {

  datatype Option<T> = None | Some(value: T)

  /** The genre allow-list, in the order of the source's tuple. */
  const ValidGenres: seq<string> :=
    ["Fiction", "Non-Fiction", "Sci-Fi", "Mystery", "Biography", "History"]

  /** The most books one member may hold at the same time. */
  const BorrowLimit: nat := 3

  /**
   * A catalog entry. `borrowedBy` lists the ids of the members holding a copy,
   * in the order they borrowed it. `totalCopies` is never validated by the
   * source, so it is an unrestricted `int`.
   */
  datatype Book = Book(
    title: string,
    author: string,
    genre: string,
    totalCopies: int,
    availableCopies: int,
    borrowedBy: seq<string>)

  /** A member record; `borrowedBooks` lists the ISBNs held, in borrowing order. */
  datatype Member = Member(
    memberId: string,
    name: string,
    email: string,
    borrowedBooks: seq<string>)

  /** One kind per failure message of the operations. */
  datatype Error =
    | DuplicateIsbn       // "Book with this ISBN already exists"
    | InvalidGenre        // "Invalid genre. Must be one of: ..."
    | BookNotFound        // "Book not found"
    | BookHasBorrows      // "Cannot delete book - copies are currently borrowed"
    | DuplicateMemberId   // "Member ID already exists"
    | MemberNotFound      // "Member not found"
    | MemberHasBorrows    // "Cannot delete member - they have borrowed books"
    | LimitReached        // "Member has reached borrow limit (3 books)"
    | NoCopies            // "No copies available for borrowing"
    | AlreadyBorrowed     // "Member already borrowed this book"
    | NotBorrowed         // "Member hasn't borrowed this book"

  /** The boolean half of the source's `(success, message)` pair, with the message as a kind. */
  datatype Outcome = Ok | Fail(error: Error)

  /**
   * One keyword argument of `update_book`, in argument order. Keys outside the
   * allow-list (`available_copies`, `borrowed_by` and other names) are
   * `IgnoredBookField` and have no effect; an allowed name (`title`, `author`,
   * `genre`, `total_copies`) is always its `Set…` entry, never an ignored key.
   * A keyword named `isbn` is not among
   * them: Python rejects that call as a second value for the positional
   * parameter before the body runs, so no patch stands for it.
   */
  datatype BookField =
    | SetTitle(title: string)
    | SetAuthor(author: string)
    | SetGenre(genre: string)
    | SetTotalCopies(totalCopies: int)
    | IgnoredBookField(key: string)

  /**
   * One keyword argument of `update_member`. `borrowed_books` and other names
   * outside the allow-list are ignored keys; `name` and `email` are always
   * their `Set…` entries, never ignored keys. A keyword named `member_id` is
   * not among them: Python rejects that call before the body runs.
   */
  datatype MemberField =
    | SetName(name: string)
    | SetEmail(email: string)
    | IgnoredMemberField(key: string)
}
