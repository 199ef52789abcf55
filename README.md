# Mini library catalog: a verified model

This project models the operations module of a small lending-library system.
The module keeps three things in memory:

- a dictionary of books keyed by ISBN, each with a title, author, genre, total and available copy counts, and the ids of the members currently holding a copy;
- a list of members, each with the ISBNs they currently hold;
- a fixed tuple of six allowed genres.

The operations add, update and delete books and members, search the books by title or author, lend a book to a member and take it back. Every operation either reports a failure and changes nothing (with one exception, `update_book`) or makes a small, exactly known set of changes.

The project has five modules:

- `LibraryTypes` (`library_types.dfy`): the records, the genre allow-list, the borrow limit of 3, one error kind per failure message, and the keyword arguments of the two update operations as ordered field patches.
- `CatalogSpec` (`catalog_spec.dfy`): the state as a value `Catalog` and every operation as a function from a state to an outcome and the state it leaves. It also defines any sequence of operations (`Run`) and the invariant `Inv` that every reachable state satisfies.
- `CatalogLemmas` (`catalog_lemmas.dfy`): what the source promises, proved about those functions.
  - the check order of every operation;
  - the exact effect of every success, and that failures change nothing;
  - the partial update of `update_book`;
  - preservation of the invariant by every operation and every run;
  - conservation of copies in circulation;
  - the borrow-then-return round trip;
  - soundness, completeness and ordering of search.
- `Library` (`library.dfy`): the class that the source's module-level state becomes. Its `books`, `order` and `members` fields are updated in place by methods with the source's loops: the member scans with `break`, the keyword-argument walk of the updates and the search loop. Each method is proved to leave the object in exactly the state the matching `CatalogSpec` function describes, and to keep `Inv`.
- `Scenarios` (`scenarios.dfy`): the call sequences of the repository's unit tests, replayed as calls to the class, with what each test asserts as the postcondition.

Python dictionaries iterate in insertion order, and `search_books` returns its matches in that order. The model therefore keeps the ISBNs in insertion order in a sequence `order` beside the `books` map. `del` removes the key from it, and a re-added ISBN goes to the end.

A reader might expect `available_copies <= total_copies` to hold always. The code does not keep it: `update_book(total_copies=n)` rewrites the total without touching the shelf count, and `add_book` accepts any total, negative ones included. The model follows the code. `CatalogLemmas.SetTotalCopiesOnly` shows a single update that leaves more copies on the shelf than the book has in all.

## Model

| member | source | states |
|---|---|---|
| CatalogSpec.IndexOf | operations.py:106-110 | The member scan returns the first index whose id matches, or none when no member has the id. |
| CatalogSpec.RemoveFirst | operations.py:208-209 | `list.remove` shortens the list by one when the item is present and leaves the list as it is otherwise. |
| CatalogLemmas.RemoveFirstAt | operations.py:208-209 | When the first occurrence of the item is at position k, exactly the element at k is dropped and the others keep their order. |
| CatalogSpec.Lower | operations.py:39 | Lower-casing keeps the length and leaves no upper-case ASCII letter. |
| CatalogSpec.Contains | operations.py:42 | Python's substring test: a prefix of the text is contained, and a contained string is no longer than the text. |
| CatalogSpec.Matches | operations.py:42-44 | A book matches only for `search_by` equal to `'title'` or `'author'`. |
| CatalogSpec.Search | operations.py:34-47 | The filter over the keys in iteration order returns no more pairs than there are keys. |
| CatalogSpec.AddBook | operations.py:13-31 | A failure changes nothing. A success happens only for a new ISBN, stores it, and leaves the members alone. |
| CatalogSpec.PatchBook | operations.py:58-64 | The keyword walk writes only the fields it is given: a field no argument names keeps its value. What a named field becomes is stated by `PatchBookLastWriteWins`. |
| CatalogLemmas.PatchBookLastWriteWins | operations.py:58-64 | When argument j sets a field, no invalid genre comes at or before j, and no later argument names that field, the record ends with the value argument j gives. This holds for the title, author, a valid genre and the total. |
| CatalogSpec.UpdateBook | operations.py:50-66 | Leaves the set of ISBNs, the iteration order and the members as they were. |
| CatalogSpec.DeleteBook | operations.py:69-81 | A failure changes nothing. A success removes an ISBN that was present and leaves the members alone. |
| CatalogSpec.AddMember | operations.py:85-99 | A failure changes nothing, the books are never touched, and a success adds exactly one member. |
| CatalogSpec.PatchMember | operations.py:115-118 | The keyword walk writes only the fields it is given: a name or email no argument names keeps its value. What a named field becomes is stated by `PatchMemberLastWriteWins`. |
| CatalogLemmas.PatchMemberLastWriteWins | operations.py:115-118 | The last argument that sets the name decides the name, and the last one that sets the email decides the email. |
| CatalogSpec.UpdateMember | operations.py:102-120 | Leaves the books and the number of members as they were. |
| CatalogSpec.DeleteMember | operations.py:123-140 | A failure changes nothing, the books are never touched, and a success removes exactly one member. |
| CatalogSpec.BorrowBook | operations.py:144-180 | A success happens only for a known member and a known ISBN. |
| CatalogSpec.ReturnBook | operations.py:183-212 | A success happens only for a known member and a known ISBN. |
| CatalogSpec.MemberBorrowedBooks | operations.py:231-236 | A non-empty result is the borrowed list of a member with that id. |
| CatalogLemmas.EmptyInv | operations.py:7-8 | The empty catalog satisfies the invariant. |
| CatalogLemmas.AddBookKeepsInv | operations.py:13-31 | `add_book` keeps the invariant: keys and iteration order agree, genres are allowed, lists have no repeats, nobody holds more than 3 books, and the member and book cross-references agree. |
| CatalogLemmas.UpdateBookKeepsInv | operations.py:50-66 | `update_book` keeps the invariant, including a failed partial update. |
| CatalogLemmas.DeleteBookKeepsInv | operations.py:69-81 | `delete_book` keeps the invariant; a deleted book is held by nobody. |
| CatalogLemmas.AddMemberKeepsInv | operations.py:85-99 | `add_member` keeps the invariant; member ids stay unique. |
| CatalogLemmas.UpdateMemberKeepsInv | operations.py:102-120 | `update_member` keeps the invariant. |
| CatalogLemmas.DeleteMemberKeepsInv | operations.py:123-140 | `delete_member` keeps the invariant. |
| CatalogLemmas.BorrowKeepsInv | operations.py:144-180 | `borrow_book` keeps the invariant: after a loan nobody holds more than 3 books or the same ISBN twice, and the cross-references still agree. |
| CatalogLemmas.LendingKeepsInv | operations.py:176-178 | The three coordinated updates of a loan, applied to a consistent state that passes the checks, give a consistent state. |
| CatalogLemmas.ReturnKeepsInv | operations.py:183-212 | `return_book` keeps the invariant. |
| CatalogLemmas.ReturningKeepsInv | operations.py:208-210 | The three reverse updates of a return, applied to a consistent state, give a consistent state. |
| CatalogLemmas.InvPreserved | operations.py:13-212 | Every operation, whether it succeeds or fails, keeps the invariant. |
| CatalogLemmas.RunKeepsInv | operations.py:13-212 | Any sequence of operations from a consistent state ends in a consistent state. |
| CatalogLemmas.ReachableStatesKeepInv | operations.py:7-8 | Every state reachable from the empty catalog is consistent. |
| CatalogLemmas.AddBookContract | operations.py:17-30 | An existing ISBN fails before the genre is checked, and then an unknown genre fails. Success happens exactly when both checks pass. A failure changes nothing. A success adds one entry with every copy on the shelf and no borrowers, appends the ISBN to the iteration order, and leaves every other entry and the members as they were. |
| CatalogLemmas.AddBookTwiceRejected | operations.py:17-18 | After a successful add, a second add with the same ISBN fails with the duplicate error and changes nothing, whatever its other arguments. |
| CatalogLemmas.PatchBookKeepsCirculation | operations.py:58-64 | A patch never writes the shelf count or the borrower list. It keeps an allowed genre allowed, and its outcome is success or the invalid-genre failure. |
| CatalogLemmas.PatchBookFailsIffInvalidGenre | operations.py:60-63 | The keyword walk fails if and only if some argument sets a genre outside the allow-list. |
| CatalogLemmas.PatchBookStopsAtInvalidGenre | operations.py:60-64 | When the first invalid genre is at position j, the arguments before j stay written, those after it are not applied, and the call reports the invalid genre. |
| CatalogLemmas.UpdateBookContract | operations.py:54-66 | An unknown ISBN fails and changes nothing. Otherwise only that entry can change, its shelf count and borrowers stay the same, the keys, order and members are untouched, and the call fails exactly when some argument is an invalid genre. Each field written by the last argument naming it, reached before any invalid genre, holds that argument's value. |
| CatalogLemmas.SetTotalCopiesOnly | operations.py:57-66 | Setting `total_copies` on a known book succeeds and changes only that field. A total lowered below the shelf count leaves more copies available than the total. |
| CatalogLemmas.DeleteBookContract | operations.py:73-81 | An unknown ISBN fails, then a book with borrowers fails, and failures change nothing. Success happens exactly when the book exists with no borrowers. It removes exactly that key from the map, and from the iteration order at its position, so the other keys keep their order. In a consistent state no member holds the removed ISBN. |
| CatalogLemmas.AddMemberContract | operations.py:89-98 | Success happens exactly when no member has the id. A failure is the duplicate error and changes nothing. A success appends exactly one member with nothing borrowed and keeps ids unique. |
| CatalogLemmas.PatchMemberKeepsIdentity | operations.py:115-118 | A member patch never changes the member id or the borrowed list. |
| CatalogLemmas.UpdateMemberContract | operations.py:106-120 | An unknown id fails and changes nothing. Otherwise the call succeeds and changes only that member's record, never its id or its borrowed list. The name and email each end with the value of the last argument that sets them. |
| CatalogLemmas.DeleteMemberContract | operations.py:127-140 | With unique member ids, as in every consistent state: an unknown id fails, then a member holding books fails, and failures change nothing. Success happens exactly when a member with the id holds nothing. It removes exactly that member and keeps the others in order, and afterwards no member has the id. |
| CatalogLemmas.BorrowChecksInOrder | operations.py:149-173 | The checks run in this order: member exists, book exists, fewer than 3 held, a copy on the shelf, ISBN not already held. The first failing check decides the error, success happens exactly when all pass, and any failure changes nothing. |
| CatalogLemmas.BorrowEffect | operations.py:176-178 | A successful loan appends the ISBN to the member's list, appends the id to the book's borrowers and takes one copy off the shelf, and nothing else. Afterwards the member holds at most 3 books, the shelf count is not negative, and the copies in circulation are unchanged. |
| CatalogLemmas.ReturnChecksInOrder | operations.py:188-205 | An unknown member fails, then an unknown book, then an ISBN the member does not hold; any failure changes nothing, and the call succeeds otherwise. |
| CatalogLemmas.ReturnEffect | operations.py:208-210 | In a consistent state a successful return finds the id among the book's borrowers, so `remove` never raises. The ISBN is dropped from the member's list and the id from the borrowers, each at the one position where it stood, with the other entries kept in order. One copy goes back on the shelf. Every other field of the two records, the iteration order and all other records stay as they were. |
| CatalogLemmas.BorrowThenReturn | operations.py:144-212 | In a consistent state, a successful borrow followed by the matching return restores the whole catalog exactly. |
| CatalogLemmas.NonHolderNotListed | operations.py:172-177 | In a consistent state, a member who does not hold a book is not among its borrowers, so a new loan never repeats a borrower. |
| CatalogLemmas.ReturnUndoesLending | operations.py:208-210 | Removing the entries a loan appended gives back the lists and the shelf count as they were. |
| CatalogLemmas.FailureChangesNothing | operations.py:13-212 | Every failing operation other than `update_book` leaves the whole state as it was. |
| CatalogLemmas.StockConserved | operations.py:13-212 | No operation changes `available_copies + len(borrowed_by)` of a book that exists before and after it, and a newly added book starts with its total. |
| CatalogLemmas.AvailabilityStaysNonNegative | operations.py:168-178 | From a state with no negative shelf count, and with non-negative totals given to `add_book`, no operation makes a shelf count negative. |
| CatalogLemmas.BorrowedBooksAgreeWithBorrowers | operations.py:231-236 | An unknown id gives `[]`. In a consistent state an ISBN is in a member's list exactly when that book names the member among its borrowers. |
| CatalogLemmas.SearchSound | operations.py:41-45 | Every returned pair is a catalog entry whose title or author, lower-cased, contains the lower-cased keyword. |
| CatalogLemmas.SearchComplete | operations.py:41-45 | Every matching entry is returned. |
| CatalogLemmas.SearchInOrder | operations.py:41-45 | Results come back in the order of the keys walked: of any two pairs, the earlier names a key that stands earlier. |
| CatalogLemmas.SearchOncePerKey | operations.py:41-45 | Over distinct keys, such as the iteration order, no key comes back twice. |
| CatalogLemmas.SearchUnknownField | operations.py:42-44 | A `search_by` other than `'title'` or `'author'` returns nothing. |
| CatalogLemmas.SearchIgnoresKeywordCase | operations.py:39 | A keyword and its lower-cased form give the same results. |
| Library.Library.constructor | operations.py:7-8 | A new catalog is empty and consistent. |
| Library.Library.FindMember | operations.py:106-110 | The `for` loop with `break` returns the index `IndexOf` specifies. |
| Library.Library.AddBook | operations.py:13-31 | Leaves the state and outcome `CatalogSpec.AddBook` gives, keeps the invariant, and does not touch the members. |
| Library.Library.SearchBooks | operations.py:34-47 | The loop over the books in iteration order returns `CatalogSpec.Search` over the whole order. |
| Library.Library.UpdateBook | operations.py:50-66 | The keyword walk, including its early return, leaves the state and outcome `CatalogSpec.UpdateBook` gives, and keeps the invariant. |
| Library.Library.DeleteBook | operations.py:69-81 | Leaves the state and outcome `CatalogSpec.DeleteBook` gives and keeps the invariant. |
| Library.Library.AddMember | operations.py:85-99 | The duplicate scan and append give the state and outcome `CatalogSpec.AddMember` gives, keep the invariant, and do not touch the books. |
| Library.Library.UpdateMember | operations.py:102-120 | The scan and keyword walk leave the state and outcome `CatalogSpec.UpdateMember` gives, and keep the invariant. |
| Library.Library.DeleteMember | operations.py:123-140 | Leaves the state and outcome `CatalogSpec.DeleteMember` gives and keeps the invariant. |
| Library.Library.BorrowBook | operations.py:144-180 | The five checks and three updates give the state and outcome `CatalogSpec.BorrowBook` gives, and keep the invariant. |
| Library.Library.ReturnBook | operations.py:183-212 | The three checks and three reverse updates give the state and outcome `CatalogSpec.ReturnBook` gives, and keep the invariant. |
| Library.Library.GetMemberBorrowedBooks | operations.py:231-236 | Returns `CatalogSpec.MemberBorrowedBooks`: the member's list, or `[]` for an unknown id. |
| Scenarios.AddBookScenario | test.py:7-28 | The first add succeeds and the ISBN is then in `books`, a duplicate ISBN fails with the duplicate error, and an unknown genre fails with the genre error. |
| Scenarios.AddMemberScenario | test.py:31-47 | The first add succeeds, a duplicate id fails, and one member remains. |
| Scenarios.BorrowReturnScenario | test.py:50-75 | The borrow succeeds, borrowing the same book again fails as already borrowed, and the return succeeds. |
| Scenarios.BorrowLimitScenario | test.py:78-101 | Three loans to one member succeed and the fourth fails on the limit. |
| Scenarios.DeleteWithBorrowsScenario | test.py:104-125 | While a copy is out, deleting the book and deleting the member both fail, as the test asserts. Going beyond the test, once the copy is returned both deletions succeed. |
| Scenarios.UpdateTotalScenario | operations.py:57-64 | A sequence of no test or demo: raising the total of a 3-copy book with one copy out to 5 leaves 2 copies on the shelf and a total of 5. |

## Left out

- The message strings. Each failure message is one constructor of `Error`, and success is `Ok`.
- Python's Unicode `str.lower()`. Lower-casing is ASCII only (`A`–`Z`), applied to both the keyword and the field.
- Dynamic typing of all arguments, positional and keyword. Ids, ISBNs, names and the other text fields are strings, and `total_copies` is an `int` both in `add_book` and in a patch. Python accepts any value there. A non-integer total given to `add_book`, for example a string, becomes the available count (operations.py:28), and `borrow_book` then raises `TypeError` at operations.py:168 when it compares that count with 0. The model has no such state.
- A patch is an ordered sequence of typed fields. A key outside the allow-list is one `Ignored…` entry, and an `Ignored…` entry whose key is an allowed name (`title`, `name` and so on) is not meaningful: that keyword is a `Set…` entry. A Python call cannot repeat a keyword, while a patch can; the model applies repeats in order.
- A keyword named like the positional parameter (`isbn=` to `update_book`, `member_id=` to `update_member`) makes Python raise `TypeError` before the body runs. The model has no exception; such a key, written as an `Ignored…` entry, would be ignored and the call would succeed.
- `get_all_books`, `get_all_members` and `get_valid_genres` return the live containers or the tuple. They are plain reads of the class fields and of `ValidGenres`, so they have no members.
- Aliasing of returned containers: `get_all_books`, `get_all_members`, `search_books` (whose pairs hold the live book records) and `get_member_borrowed_books` (which returns the member's live list) hand out objects a caller can mutate, changing the catalog. `Library.SearchBooks` and `Library.GetMemberBorrowedBooks` return values, so the model does not capture changes made through what they return.
- `return_book`'s `remove` calls raise `ValueError` when the item is absent. The model uses `RemoveFirst`, which leaves the list alone in that case. `CatalogLemmas.ReturnEffect` proves the item is always present in a consistent state.
- `delete_member` removes the first member record *equal* to the one found. With unique ids (part of the invariant) that is the record at the found index, which is what the model removes.
- demo.py is console output around a call sequence and is not modelled; no scenario replays it.
- The module-level globals become one `Library` object. Resetting them between tests becomes a fresh object per scenario.
