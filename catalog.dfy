/**
 * The book catalog as a value: the record type, the single NotFound error,
 * and the meaning of each catalog operation as a function on the ordered
 * sequence of records, with the lemmas that relate the operations.
 */
module Catalog {
  import opened Text

  datatype Option<T> = None | Some(value: T)

  /** The two genres the record type admits ("fiction", "non-fiction"). */
  datatype Genre = Fiction | NonFiction

  /** One catalog record; `price` is the source's float, only ever stored and replaced. */
  datatype Book = Book(title: string, author: string, genre: Genre, price: real, bookId: string)

  /** The one error of the catalog, surfaced as an HTTP 404 with this detail text. */
  datatype Error = NotFound(detail: string)

  const BookNotFound := "Book not found"
  const NoBooksAvailable := "No books available"

  const BookAdded := "New Book was added to the Bookstore"
  const BookRemoved := "Book was removed from the Bookstore"
  const BookUpdated := "Book was updated"

  datatype Result<T> = Ok(value: T) | Fail(error: Error)

  /** What a handler looks a record up by: its id, or its title ignoring case. */
  datatype Key = ById(id: string) | ByTitle(title: string)

  predicate Selects(k: Key, b: Book) {
    match k
    case ById(id) => b.bookId == id
    case ByTitle(t) => Lower(b.title) == Lower(t)
  }

  predicate Present(books: seq<Book>, k: Key) {
    exists j :: 0 <= j < |books| && Selects(k, books[j])
  }

  /** No two records share an id. */
  predicate DistinctIds(books: seq<Book>) {
    forall i, j :: 0 <= i < j < |books| ==> books[i].bookId != books[j].bookId
  }

  /**
   * Position of the first record the key selects, scanning in list order;
   * |books| when no record is selected.
   */
  function FirstMatch(books: seq<Book>, k: Key): (i: nat)
    ensures i <= |books|
    ensures i < |books| ==> Selects(k, books[i])
    ensures forall j :: 0 <= j < i ==> !Selects(k, books[j])
  {
    if books == [] then 0
    else if Selects(k, books[0]) then 0
    else 1 + FirstMatch(books[1..], k)
  }

  /** The three properties of FirstMatch determine it. */
  lemma FirstMatchUnique(books: seq<Book>, k: Key, i: nat)
    requires i <= |books|
    requires i < |books| ==> Selects(k, books[i])
    requires forall j :: 0 <= j < i ==> !Selects(k, books[j])
    ensures FirstMatch(books, k) == i
  {
  }

  /** The scan finds something exactly when some record is selected. */
  lemma FirstMatchFound(books: seq<Book>, k: Key)
    ensures FirstMatch(books, k) < |books| <==> Present(books, k)
  {
  }

  // ---------------------------------------------------------------- find

  /** find_book: the first record with the id, or NotFound. */
  function Find(books: seq<Book>, id: string): (r: Result<Book>)
    ensures r.Ok? <==> Present(books, ById(id))
    ensures r.Ok? ==> r.value.bookId == id && r.value in books
    ensures r.Fail? ==> r.error == NotFound(BookNotFound)
  {
    var i := FirstMatch(books, ById(id));
    if i < |books| then Ok(books[i]) else Fail(NotFound(BookNotFound))
  }

  /** First match wins: a record with the id and none before it is the answer. */
  lemma FindIsFirst(books: seq<Book>, id: string, i: nat)
    requires i < |books| && books[i].bookId == id
    requires forall j :: 0 <= j < i ==> books[j].bookId != id
    ensures Find(books, id) == Ok(books[i])
  {
    FirstMatchUnique(books, ById(id), i);
  }

  /** With distinct ids, every record is found by its own id. */
  lemma FindUnique(books: seq<Book>, i: nat)
    requires DistinctIds(books)
    requires i < |books|
    ensures Find(books, books[i].bookId) == Ok(books[i])
  {
    FindIsFirst(books, books[i].bookId, i);
  }

  // ---------------------------------------------------------------- add

  /** add_book: the client's id is discarded for the minted one and the record goes last. */
  function Added(books: seq<Book>, book: Book, newId: string): (r: seq<Book>)
    ensures |r| == |books| + 1
    ensures r[..|books|] == books
    ensures r[|books|].bookId == newId
    ensures r[|books|].title == book.title && r[|books|].author == book.author
    ensures r[|books|].genre == book.genre && r[|books|].price == book.price
  {
    books + [book.(bookId := newId)]
  }

  /** A record just added under a fresh id is found by it, with the fields it was given. */
  lemma AddThenFind(books: seq<Book>, book: Book, newId: string)
    requires !Present(books, ById(newId))
    ensures var r := Find(Added(books, book, newId), newId);
      && r.Ok?
      && r.value.bookId == newId
      && r.value.title == book.title && r.value.author == book.author
      && r.value.genre == book.genre && r.value.price == book.price
  {
    var s := Added(books, book, newId);
    assert forall j :: 0 <= j < |books| ==> s[j] == books[j];
    FindIsFirst(s, newId, |books|);
  }

  /** Adding under a fresh id keeps ids pairwise distinct. */
  lemma AddKeepsDistinct(books: seq<Book>, book: Book, newId: string)
    requires DistinctIds(books)
    requires !Present(books, ById(newId))
    ensures DistinctIds(Added(books, book, newId))
  {
    var s := Added(books, book, newId);
    forall i, j | 0 <= i < j < |s|
      ensures s[i].bookId != s[j].bookId
    {
      assert s[i] == books[i];
      if j == |books| {
        assert !Selects(ById(newId), books[i]);
      } else {
        assert s[j] == books[j];
      }
    }
  }

  // ---------------------------------------------------------------- remove

  /** Python's list.remove(x): drops the first element equal to x. */
  function ListRemove<T(==)>(s: seq<T>, x: T): (r: seq<T>)
    requires x in s
    ensures |r| == |s| - 1
    ensures multiset(r) + multiset{x} == multiset(s)
  {
    assert s == [s[0]] + s[1..];
    if s[0] == x then s[1..] else [s[0]] + ListRemove(s[1..], x)
  }

  /** When x first occurs at i, list.remove(x) deletes exactly position i. */
  lemma {:induction false} ListRemoveAt<T>(s: seq<T>, x: T, i: nat)
    requires i < |s| && s[i] == x
    requires forall j :: 0 <= j < i ==> s[j] != x
    ensures ListRemove(s, x) == s[..i] + s[i + 1..]
  {
    if i > 0 {
      ListRemoveAt(s[1..], x, i - 1);
      assert s[1..][..i - 1] == s[1..i];
      assert s[1..][i..] == s[i + 1..];
      assert s[..i] == [s[0]] + s[1..i];
    }
  }

  /**
   * remove_book_by_id / remove_book_by_title: deletes the first record the key
   * selects, or fails with NotFound and changes nothing.
   */
  function RemoveFirst(books: seq<Book>, k: Key): (r: Result<seq<Book>>)
    ensures r.Ok? <==> Present(books, k)
    ensures r.Ok? ==> |r.value| == |books| - 1
    ensures r.Fail? ==> r.error == NotFound(BookNotFound)
  {
    var i := FirstMatch(books, k);
    if i < |books| then Ok(books[..i] + books[i + 1..]) else Fail(NotFound(BookNotFound))
  }

  /**
   * The record removed is the first one selected; every record before it keeps
   * its position, every record after it moves up by one, and nothing else is lost.
   */
  lemma RemoveFirstFrame(books: seq<Book>, k: Key)
    requires Present(books, k)
    ensures var i, r := FirstMatch(books, k), RemoveFirst(books, k).value;
      && i < |books| && Selects(k, books[i])
      && (forall j :: 0 <= j < i ==> !Selects(k, books[j]) && r[j] == books[j])
      && (forall j :: i <= j < |r| ==> r[j] == books[j + 1])
      && multiset(r) + multiset{books[i]} == multiset(books)
  {
    var i := FirstMatch(books, k);
    var r := RemoveFirst(books, k).value;
    assert r == books[..i] + books[i + 1..];
    assert books == books[..i] + ([books[i]] + books[i + 1..]);
  }

  /** Removing records never makes ids collide. */
  lemma RemoveKeepsDistinct(books: seq<Book>, k: Key)
    requires DistinctIds(books)
    requires Present(books, k)
    ensures DistinctIds(RemoveFirst(books, k).value)
  {
    var i, r := FirstMatch(books, k), RemoveFirst(books, k).value;
    RemoveFirstFrame(books, k);
    forall a, b | 0 <= a < b < |r|
      ensures r[a].bookId != r[b].bookId
    {
      var a', b' := if a < i then a else a + 1, if b < i then b else b + 1;
      assert r[a] == books[a'] && r[b] == books[b'] && a' < b';
    }
  }

  /** With distinct ids, once a book is removed by id it can no longer be found. */
  lemma RemoveByIdThenNotFound(books: seq<Book>, id: string)
    requires DistinctIds(books)
    requires Present(books, ById(id))
    ensures Find(RemoveFirst(books, ById(id)).value, id) == Fail(NotFound(BookNotFound))
  {
    var i, r := FirstMatch(books, ById(id)), RemoveFirst(books, ById(id)).value;
    RemoveFirstFrame(books, ById(id));
    forall j | 0 <= j < |r|
      ensures !Selects(ById(id), r[j])
    {
      if j >= i {
        assert r[j] == books[j + 1];
        assert books[i].bookId != books[j + 1].bookId;
      }
    }
  }

  /** Removing by title ignores case: any record whose title lower-cases like the argument makes it succeed. */
  lemma RemoveByTitleIgnoresCase(books: seq<Book>, title: string, j: nat)
    requires j < |books| && Lower(books[j].title) == Lower(title)
    ensures RemoveFirst(books, ByTitle(title)).Ok?
    ensures FirstMatch(books, ByTitle(title)) <= j
  {
    assert Selects(ByTitle(title), books[j]);
  }

  /** A catalog holding only "Dune" is emptied by removing the title "dune". */
  lemma RemoveDuneByLowerCase(author: string, genre: Genre, price: real, id: string)
    ensures RemoveFirst([Book("Dune", author, genre, price, id)], ByTitle("dune")) == Ok([])
  {
    LowerIgnoresCase("Dune", "dune");
    assert Selects(ByTitle("dune"), Book("Dune", author, genre, price, id));
  }

  // ---------------------------------------------------------------- update

  /** The two in-place edits a handler can make to a record. */
  datatype Edit = Retitle(title: string) | Reprice(price: real)

  /** Applies an edit: only the targeted field changes. */
  function Apply(b: Book, e: Edit): (r: Book)
    ensures r.bookId == b.bookId && r.author == b.author && r.genre == b.genre
    ensures r.title == (if e.Retitle? then e.title else b.title)
    ensures r.price == (if e.Reprice? then e.price else b.price)
  {
    match e
    case Retitle(t) => b.(title := t)
    case Reprice(p) => b.(price := p)
  }

  /**
   * update_book_title / update_book_price: edits the first record with the id,
   * or fails with NotFound and changes nothing.
   */
  function Update(books: seq<Book>, id: string, e: Edit): (r: Result<seq<Book>>)
    ensures r.Ok? <==> Present(books, ById(id))
    ensures r.Ok? ==> |r.value| == |books|
    ensures r.Fail? ==> r.error == NotFound(BookNotFound)
  {
    var i := FirstMatch(books, ById(id));
    if i < |books| then Ok(books[i := Apply(books[i], e)]) else Fail(NotFound(BookNotFound))
  }

  /** Only the first record with the id is edited; every other record is untouched and ids never change. */
  lemma UpdateFrame(books: seq<Book>, id: string, e: Edit)
    requires Present(books, ById(id))
    ensures var i, r := FirstMatch(books, ById(id)), Update(books, id, e).value;
      && i < |books| && books[i].bookId == id
      && r[i] == Apply(books[i], e)
      && (forall j :: 0 <= j < |r| && j != i ==> r[j] == books[j])
      && (forall j :: 0 <= j < |r| ==> r[j].bookId == books[j].bookId)
  {
  }

  /** Updating keeps ids pairwise distinct. */
  lemma UpdateKeepsDistinct(books: seq<Book>, id: string, e: Edit)
    requires DistinctIds(books)
    requires Present(books, ById(id))
    ensures DistinctIds(Update(books, id, e).value)
  {
    UpdateFrame(books, id, e);
  }

  /** After an update, looking the id up yields the old record with the edit applied. */
  lemma UpdateThenFind(books: seq<Book>, id: string, e: Edit)
    requires Present(books, ById(id))
    ensures Find(Update(books, id, e).value, id) == Ok(Apply(Find(books, id).value, e))
  {
    var i, r := FirstMatch(books, ById(id)), Update(books, id, e).value;
    UpdateFrame(books, id, e);
    FindIsFirst(r, id, i);
  }
}
