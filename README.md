# Bookstore catalog — a Dafny model

This project models the book catalog of a small FastAPI bookstore service
(`main.py`). The service keeps one process-wide, ordered list of book records.
Each record has a title, an author, a genre (`fiction` or `non-fiction`), a
price and a `book_id`. The route handlers read and change that list:

- find a record by id: the first record with that id is returned;
- pick a random record: this fails when the list is empty;
- add a record under a freshly minted id;
- remove the first record with a given id;
- remove the first record whose title matches, ignoring case;
- overwrite the title or the price of the first record with a given id.

Every lookup that finds nothing ends in a 404 `NotFound`. After every
successful change, the whole list is written back to `books.json`.

The model has three modules:

- `Text` (`text.dfy`): lower-casing, used for the title comparison.
- `Catalog` (`catalog.dfy`): the record and error types, and each operation's
  meaning as a function on the sequence of records. `FirstMatch` is the
  in-order scan. `Find`, `Added`, `RemoveFirst` and `Update` are the
  operations. Lemmas relate these operations: an added record is found, a
  removed id is no longer found, and ids stay distinct.
- `Bookstore` (`bookstore.dfy`): the class `BookDatabase`. Its field `books` is
  the list. Its field `saved` is what the backing file holds. The handlers
  that scan the list (find, the two deletes, the two updates) are methods
  whose `while` loop mirrors the source's `for` loop and returns at the first
  match. `FindBook`, `RemoveWhere`, `UpdateWhere` and `AddBook` are proved
  equal to `Find`, `RemoveFirst`, `Update` and `Added`. `RandomBook` is
  specified by a relation: it returns some record of a non-empty list.
  `ListBooks` returns the list itself. Two client methods, `FindBookTest`
  and `AddBookTest`, restate every assertion of the repository's two tests
  against the methods' contracts alone. A third, `EmptyAndRemoveScenario`,
  is not one of those tests: it checks that a random pick on an empty store
  fails and that a book removed by id is no longer found.

## Model

| member | source | states |
|---|---|---|
| `Text.LowerChar` | main.py:77 | lower-cases an ASCII capital to the matching small letter and leaves every other character alone; the result is never a capital |
| `Text.Lower` | main.py:77 | `str.lower()` on ASCII: same length, each character lower-cased in place |
| `Text.LowerIgnoresCase` | main.py:77 | two strings that differ only in letter case lower-case to the same string |
| `Catalog.FirstMatch` | main.py:40-42 | the in-order scan: the index it returns holds a selected record and no earlier record is selected; when nothing is selected it returns the length of the list |
| `Catalog.FirstMatchUnique` | main.py:40-42 | any index that is selected and has no selected record before it is the scan's answer, so the first match is the one taken |
| `Catalog.FirstMatchFound` | main.py:40-43 | the scan stops inside the list exactly when some record is selected, so the loop falls through to the 404 exactly when none is |
| `Catalog.Find` | main.py:39-43 | `find_book` succeeds exactly when some record has the id; the record returned has that id and is in the list; otherwise the result is NotFound("Book not found") |
| `Catalog.FindIsFirst` | main.py:40-42 | first match wins: a record with the id that has no earlier record with the id is the one returned |
| `Catalog.FindUnique` | main.py:39-42 | when ids are distinct, every record is found by its own id |
| `Catalog.Added` | main.py:54-57 | `add_book` appends exactly one record at the end and keeps every earlier record; the new record carries the minted id and the given title, author, genre and price |
| `Catalog.AddThenFind` | main.py:54-57 | a record added under an unused id is then found by that id, with exactly the title, author, genre and price it was given |
| `Catalog.AddKeepsDistinct` | main.py:55-57 | adding under an unused id keeps the ids pairwise distinct |
| `Catalog.ListRemove` | main.py:67 | `list.remove(x)` removes one occurrence of `x`: the list loses exactly one element, and the multiset of the rest plus `x` equals the original |
| `Catalog.ListRemoveAt` | main.py:65-67 | when `x` first occurs at position i, `list.remove(x)` deletes exactly position i and keeps the rest in order |
| `Catalog.RemoveFirst` | main.py:64-82 | a delete succeeds exactly when some record is selected and then shrinks the list by one; otherwise it is NotFound("Book not found") |
| `Catalog.RemoveFirstFrame` | main.py:65-67 | the deleted record is the first one selected; the records before it keep their positions, the records after it move up by one, and the multiset loses only the deleted record |
| `Catalog.RemoveKeepsDistinct` | main.py:65-67 | deleting a record keeps the ids pairwise distinct |
| `Catalog.RemoveByIdThenNotFound` | main.py:65-71 | when ids are distinct, a record removed by id can no longer be found by that id |
| `Catalog.RemoveByTitleIgnoresCase` | main.py:76-78 | a delete by title succeeds when any record's title lower-cases like the argument, and it deletes that record or an earlier one |
| `Catalog.RemoveDuneByLowerCase` | main.py:76-80 | a list holding only a book titled "Dune" is emptied by deleting the title "dune" |
| `Catalog.Apply` | main.py:87-100 | a title edit changes only the title and a price edit changes only the price; the id, author and genre are always kept |
| `Catalog.Update` | main.py:86-104 | an update succeeds exactly when some record has the id and keeps the list's length; otherwise it is NotFound("Book not found") |
| `Catalog.UpdateFrame` | main.py:87-89 | only the first record with the id is edited; every other record is unchanged and no id changes |
| `Catalog.UpdateKeepsDistinct` | main.py:98-100 | editing a title or a price keeps the ids pairwise distinct |
| `Catalog.UpdateThenFind` | main.py:87-100 | after an update, finding the id yields the previously found record with the edit applied |
| `Bookstore.BookDatabase.constructor` | main.py:19-25 | at start-up, the list is the backing file's content, or empty when no file exists |
| `Bookstore.BookDatabase.Persist` | main.py:58-59 | the backing file is rewritten in full with the current list, and the list itself does not change |
| `Bookstore.BookDatabase.ListBooks` | main.py:33-35 | `list_books` returns the whole list in insertion order |
| `Bookstore.BookDatabase.FindBook` | main.py:38-43 | the scanning loop returns exactly `Find` of the list |
| `Bookstore.BookDatabase.RandomBook` | main.py:46-50 | fails with NotFound("No books available") exactly when the list is empty; otherwise it returns some record of the list |
| `Bookstore.BookDatabase.AddBook` | main.py:53-60 | given an unused id, the list becomes `Added` of the old list and is saved; ids stay distinct if they were distinct |
| `Bookstore.BookDatabase.RemoveWhere` | main.py:65-71 | the scan-then-`list.remove` loop produces exactly `RemoveFirst` and saves the list; when nothing matches, neither the list nor the file changes |
| `Bookstore.BookDatabase.RemoveBookById` | main.py:63-71 | deletes by id as `RemoveFirst` describes; when ids were distinct, they stay distinct and the id can no longer be found |
| `Bookstore.BookDatabase.RemoveBookByTitle` | main.py:74-82 | deletes the first record whose title matches ignoring case, as `RemoveFirst` describes, and keeps ids distinct |
| `Bookstore.BookDatabase.UpdateWhere` | main.py:87-93 | the scan-then-edit loop produces exactly `Update` and saves the list; when no id matches, neither the list nor the file changes |
| `Bookstore.BookDatabase.UpdateBookTitle` | main.py:85-93 | overwrites only the title of the first record with the id, as `Update` describes, and keeps ids distinct |
| `Bookstore.BookDatabase.UpdateBookPrice` | main.py:96-104 | overwrites only the price of the first record with the id, as `Update` describes, and keeps ids distinct |

## Left out

- HTTP routing, `HTTPException` and the `home` greeting are transport code. A 404 is the `NotFound` value, carrying the same detail text. Success bodies are the message strings.
- JSON encoding and decoding of `books.json` is not modelled. The file is the abstract snapshot `saved`: the constructor receives its parsed content, and each successful change sets it to the whole list. A load or write failure, and a file whose records lack a key, are not modelled.
- Pydantic validation and `jsonable_encoder` are not modelled. A record arrives already typed, and the two-value `Literal` genre is the datatype `Genre`.
- `uuid4().hex` minting: the new id is the parameter `newId` of `AddBook`, with the precondition that no record already uses it (what a random UUID, with 122 random bits, is relied on for). The id default evaluated once at class definition (main.py:17) is always overwritten, so it is not modelled.
- `random.choice` is modelled as a nondeterministic choice of an index. Its uniform distribution is not modelled.
- `price` is a Python float, modelled as `real`. The source only stores and replaces prices, so IEEE rounding and NaN are not modelled.
- `Text.Lower`: Python's `str.lower()` folds all of Unicode; the model lower-cases only ASCII capitals.
- Records are values here, and an update replaces the record at its index. In the source, the dict is mutated in place. No other reference to that dict exists, so the two agree.
- Filtering by genre or by author: `main.py` has no such handler, so there is nothing to model.
- Concurrent requests are not modelled: each handler runs to completion before the next one starts.
