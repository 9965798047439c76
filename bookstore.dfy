/**
 * The process-wide book list and the route handlers that read and change it.
 * Each handler scans the list in order and acts on the first record it
 * selects; after every successful change the whole list is written back to
 * the backing file, modelled here as the `saved` snapshot.
 */
module Bookstore {
  import opened Catalog

  class BookDatabase {
    /** The ordered list of records, in insertion order. */
    var books: seq<Book>
    /** What the backing file books.json holds; None while no such file exists. */
    var saved: Option<seq<Book>>

    /** Start-up: the list is what the backing file held, or empty when there is no file. */
    constructor (file: Option<seq<Book>>)
      ensures books == (if file.Some? then file.value else [])
      ensures saved == file
    {
      books := if file.Some? then file.value else [];
      saved := file;
    }

    /** The full rewrite of the backing file after a change. */
    method Persist()
      modifies this
      ensures books == old(books)
      ensures saved == Some(books)
    {
      saved := Some(books);
    }

    /** list_books: the whole list, in insertion order. */
    method ListBooks() returns (r: seq<Book>)
      ensures r == books
    {
      r := books;
    }

    /** find_book: scans for the first record with the id. */
    method FindBook(id: string) returns (r: Result<Book>)
      ensures r == Find(books, id)
    {
      var i := 0;
      while i < |books|
        invariant i <= |books|
        invariant forall j :: 0 <= j < i ==> books[j].bookId != id
      {
        if books[i].bookId == id {
          FindIsFirst(books, id, i);
          return Ok(books[i]);
        }
        i := i + 1;
      }
      return Fail(NotFound(BookNotFound));
    }

    /** random_book: NotFound on an empty list, otherwise any one record. */
    method RandomBook() returns (r: Result<Book>)
      ensures r.Fail? <==> books == []
      ensures r.Fail? ==> r.error == NotFound(NoBooksAvailable)
      ensures r.Ok? ==> r.value in books
    {
      if books == [] {
        return Fail(NotFound(NoBooksAvailable));
      }
      var i :| 0 <= i < |books|;
      return Ok(books[i]);
    }

    /**
     * add_book: the record's own id is replaced by the freshly minted `newId`,
     * the record is appended and the list is saved.
     */
    method AddBook(book: Book, newId: string) returns (message: string)
      requires !Present(books, ById(newId))
      modifies this
      ensures books == Added(old(books), book, newId)
      ensures saved == Some(books)
      ensures message == BookAdded
      ensures DistinctIds(old(books)) ==> DistinctIds(books)
    {
      var minted := book.(bookId := newId);
      books := books + [minted];
      Persist();
      if DistinctIds(old(books)) {
        AddKeepsDistinct(old(books), book, newId);
      }
      return BookAdded;
    }

    /**
     * The loop shared by both delete handlers: the first record the key
     * selects is taken out with list.remove, and the list is saved.
     */
    method RemoveWhere(k: Key) returns (r: Result<string>)
      modifies this
      ensures match RemoveFirst(old(books), k)
        case Ok(rest) => books == rest && saved == Some(rest) && r == Ok(BookRemoved)
        case Fail(e) => books == old(books) && saved == old(saved) && r == Fail(e)
    {
      var i := 0;
      while i < |books|
        invariant i <= |books|
        invariant books == old(books) && saved == old(saved)
        invariant forall j :: 0 <= j < i ==> !Selects(k, books[j])
      {
        var book := books[i];
        if Selects(k, book) {
          FirstMatchUnique(books, k, i);
          assert forall j :: 0 <= j < i ==> books[j] != book;
          ListRemoveAt(books, book, i);
          books := ListRemove(books, book);
          Persist();
          return Ok(BookRemoved);
        }
        i := i + 1;
      }
      FirstMatchUnique(books, k, i);
      return Fail(NotFound(BookNotFound));
    }

    /** remove_book_by_id. */
    method RemoveBookById(id: string) returns (r: Result<string>)
      modifies this
      ensures match RemoveFirst(old(books), ById(id))
        case Ok(rest) => books == rest && saved == Some(rest) && r == Ok(BookRemoved)
        case Fail(e) => books == old(books) && saved == old(saved) && r == Fail(e)
      ensures DistinctIds(old(books)) ==> DistinctIds(books) && Find(books, id).Fail?
    {
      if DistinctIds(books) && Present(books, ById(id)) {
        RemoveKeepsDistinct(books, ById(id));
        RemoveByIdThenNotFound(books, id);
      }
      r := RemoveWhere(ById(id));
    }

    /** remove_book_by_title: the title is compared ignoring case. */
    method RemoveBookByTitle(title: string) returns (r: Result<string>)
      modifies this
      ensures match RemoveFirst(old(books), ByTitle(title))
        case Ok(rest) => books == rest && saved == Some(rest) && r == Ok(BookRemoved)
        case Fail(e) => books == old(books) && saved == old(saved) && r == Fail(e)
      ensures DistinctIds(old(books)) ==> DistinctIds(books)
    {
      if DistinctIds(books) && Present(books, ByTitle(title)) {
        RemoveKeepsDistinct(books, ByTitle(title));
      }
      r := RemoveWhere(ByTitle(title));
    }

    /**
     * The loop shared by both update handlers: the first record with the id
     * is edited in place and the list is saved.
     */
    method UpdateWhere(id: string, e: Edit) returns (r: Result<string>)
      modifies this
      ensures match Update(old(books), id, e)
        case Ok(edited) => books == edited && saved == Some(edited) && r == Ok(BookUpdated)
        case Fail(err) => books == old(books) && saved == old(saved) && r == Fail(err)
    {
      var i := 0;
      while i < |books|
        invariant i <= |books|
        invariant books == old(books) && saved == old(saved)
        invariant forall j :: 0 <= j < i ==> books[j].bookId != id
      {
        if books[i].bookId == id {
          FirstMatchUnique(books, ById(id), i);
          books := books[i := Apply(books[i], e)];
          Persist();
          return Ok(BookUpdated);
        }
        i := i + 1;
      }
      FirstMatchUnique(books, ById(id), i);
      return Fail(NotFound(BookNotFound));
    }

    /** update_book_title. */
    method UpdateBookTitle(id: string, title: string) returns (r: Result<string>)
      modifies this
      ensures match Update(old(books), id, Retitle(title))
        case Ok(edited) => books == edited && saved == Some(edited) && r == Ok(BookUpdated)
        case Fail(err) => books == old(books) && saved == old(saved) && r == Fail(err)
      ensures DistinctIds(old(books)) ==> DistinctIds(books)
    {
      if DistinctIds(books) && Present(books, ById(id)) {
        UpdateKeepsDistinct(books, id, Retitle(title));
      }
      r := UpdateWhere(id, Retitle(title));
    }

    /** update_book_price. */
    method UpdateBookPrice(id: string, price: real) returns (r: Result<string>)
      modifies this
      ensures match Update(old(books), id, Reprice(price))
        case Ok(edited) => books == edited && saved == Some(edited) && r == Ok(BookUpdated)
        case Fail(err) => books == old(books) && saved == old(saved) && r == Fail(err)
      ensures DistinctIds(old(books)) ==> DistinctIds(books)
    {
      if DistinctIds(books) && Present(books, ById(id)) {
        UpdateKeepsDistinct(books, id, Reprice(price));
      }
      r := UpdateWhere(id, Reprice(price));
    }
  }

  /**
   * test_find_book, replayed on a database the fixture has emptied, using the
   * handlers' contracts alone.
   */
  method FindBookTest(newId: string)
    requires newId != "nonexistent_id"
  {
    var db := new BookDatabase(None);
    var sample := Book("Sample Book", "Author Name", Fiction, 19.99, "");
    var msg := db.AddBook(sample, newId);
    assert msg == BookAdded;
    var bookId := db.books[0].bookId;
    var found := db.FindBook(bookId);
    AddThenFind([], sample, newId);
    assert found.Ok?;
    assert found.value.title == "Sample Book" && found.value.author == "Author Name";
    assert found.value.genre == Fiction && found.value.price == 19.99;
    var missing := db.FindBook("nonexistent_id");
    assert missing == Fail(NotFound(BookNotFound));
  }

  /** test_add_book, replayed on a database the fixture has emptied. */
  method AddBookTest(id1: string, id2: string)
    requires id1 != id2
  {
    var db := new BookDatabase(None);
    var msg := db.AddBook(Book("Sample Book", "Author Name", Fiction, 19.99, ""), id1);
    assert msg == BookAdded && |db.books| == 1;
    assert db.books[0].title == "Sample Book" && db.books[0].author == "Author Name";
    assert db.books[0].genre == Fiction && db.books[0].price == 19.99;

    msg := db.AddBook(Book("Another Book", "Another Name", NonFiction, 29.99, ""), id2);
    assert msg == BookAdded && |db.books| == 2;
    assert db.books[1].title == "Another Book" && db.books[1].author == "Another Name";
    assert db.books[1].genre == NonFiction && db.books[1].price == 29.99;
  }

  /**
   * Not among the repository's tests: a random pick on an empty database
   * fails, and a record removed by id can no longer be found.
   */
  method EmptyAndRemoveScenario(newId: string)
  {
    var db := new BookDatabase(None);
    var none := db.RandomBook();
    assert none == Fail(NotFound(NoBooksAvailable));

    var msg := db.AddBook(Book("T1", "Au1", Fiction, 19.99, ""), newId);
    var all := db.ListBooks();
    assert all == [Book("T1", "Au1", Fiction, 19.99, newId)];
    var removed := db.RemoveBookById(newId);
    assert removed == Ok(BookRemoved);
    all := db.ListBooks();
    assert all == [];
    var found := db.FindBook(newId);
    assert found == Fail(NotFound(BookNotFound));
    assert db.saved == Some([]);
  }
}
