/** The catalog object: an ordered list of book records that `add_book`,
    `delete_book` and `change_status` update in place, each successful
    update followed by a rewrite of the backing file. */
module Library {
  import opened Books

  /** How an operation ended, in place of the message the catalog prints. */
  datatype Outcome = Done | NotFound | InvalidStatus

  class BookManager {
    /** `self.books`: the records in insertion order. */
    var books: seq<Book>
    /** The lists written to the backing file by `save_books`, oldest first. */
    ghost var saved: seq<seq<Book>>

    ghost predicate Valid()
      reads this
    {
      Catalogued(books)
    }

    /** `__init__`: `loaded` is what the backing file decoded to, or [] when
        there is no file; nothing is written. */
    constructor (loaded: seq<Book>)
      ensures books == loaded && saved == []
      ensures Catalogued(loaded) ==> Valid()
    {
      books := loaded;
      saved := [];
    }

    /** `save_books`: the whole current list overwrites the file. */
    ghost method SaveBooks()
      modifies this`saved
      ensures saved == old(saved) + [books]
    {
      saved := saved + [books];
    }

    /** `add_book`: appends a record with ID "last + 1" (1 on an empty list)
        and status "в наличии", then saves. */
    method AddBook(title: string, author: string, year: int) returns (added: Book)
      modifies this
      ensures added == NewBook(old(books), Request(title, author, year))
      ensures books == old(books) + [added]
      ensures saved == old(saved) + [books]
      ensures old(Valid()) ==> Valid() && forall b :: b in old(books) ==> b.id < added.id
    {
      added := NewBook(books, Request(title, author, year));
      if Catalogued(books) {
        AddKeepsCatalogued(books, Request(title, author, year));
        NextIdIsMaxPlusOne(books);
      }
      books := books + [added];
      SaveBooks();
    }

    /** `delete_book`: removes the record `find_book_by_id` returns and
        saves; an absent ID changes nothing and writes nothing. */
    method DeleteBook(bookId: int) returns (outcome: Outcome)
      modifies this
      ensures outcome == if FindBookById(old(books), bookId).Some? then Done else NotFound
      ensures outcome == Done ==>
        && books == RemoveFirst(old(books), FindBookById(old(books), bookId).value)
        && saved == old(saved) + [books]
      ensures outcome == NotFound ==> books == old(books) && saved == old(saved)
      ensures old(Valid()) ==> Valid() && FindBookById(books, bookId).None?
      ensures old(Valid()) && outcome == Done ==>
        var k := FirstWithId(old(books), bookId).value;
        books == old(books)[..k] + old(books)[k + 1..]
    {
      var book := FindBookById(books, bookId);
      if book.Some? {
        if Catalogued(books) {
          DeleteExisting(books, bookId);
        }
        books := RemoveFirst(books, book.value);
        SaveBooks();
        outcome := Done;
      } else {
        outcome := NotFound;
      }
    }

    /** `change_status`: an absent ID is reported first; then a status other
        than the two literals is refused; otherwise only the status of the
        first record with the ID changes, and the list is saved. */
    method ChangeStatus(bookId: int, status: string) returns (outcome: Outcome)
      modifies this
      ensures FirstWithId(old(books), bookId).None? ==> outcome == NotFound
      ensures FirstWithId(old(books), bookId).Some? && ParseStatus(status).None? ==> outcome == InvalidStatus
      ensures outcome != Done ==> books == old(books) && saved == old(saved)
      ensures outcome == Done <==> FirstWithId(old(books), bookId).Some? && ParseStatus(status).Some?
      ensures outcome == Done ==>
        && books == SetStatus(old(books), FirstWithId(old(books), bookId).value, ParseStatus(status).value)
        && saved == old(saved) + [books]
      ensures old(Valid()) ==> Valid()
      ensures old(Valid()) && outcome == Done ==>
        FindBookById(books, bookId) == Some(FindBookById(old(books), bookId).value.(status := ParseStatus(status).value))
    {
      var at := FirstWithId(books, bookId);
      if at.Some? {
        var s := ParseStatus(status);
        if s.Some? {
          if Catalogued(books) {
            SetStatusKeepsCatalogued(books, bookId, s.value);
          }
          books := SetStatus(books, at.value, s.value);
          SaveBooks();
          outcome := Done;
        } else {
          outcome := InvalidStatus;
        }
      } else {
        outcome := NotFound;
      }
    }
  }

  /** A sample session: add Dune and Foundation (IDs 1 and 2), delete 1,
      then add Neuromancer, which gets ID 3, not 1. */
  method Scenario() returns (m: BookManager)
    ensures fresh(m)
    ensures |m.books| == 2 && m.books[0].id == 2 && m.books[1].id == 3
  {
    m := new BookManager([]);
    var dune := m.AddBook("Dune", "Herbert", 1965);
    assert dune.id == 1 && dune.status == Available;
    var foundation := m.AddBook("Foundation", "Asimov", 1951);
    assert foundation.id == 2;
    assert FirstWithId(m.books, 1) == Some(0);
    var outcome := m.DeleteBook(1);
    assert outcome == Done;
    assert m.books == [foundation];
    var neuromancer := m.AddBook("Neuromancer", "Gibson", 1984);
    assert neuromancer.id == 3;
  }

  /** The session continued: book 2 is checked out. */
  method CheckOutScenario()
  {
    var m := Scenario();
    assert FirstWithId(m.books, 2) == Some(0);
    var outcome := m.ChangeStatus(2, "выдана");
    assert outcome == Done;
    assert FindBookById(m.books, 2).value.status == Issued;
  }

  /** The session continued: a status other than the two literals is refused
      and nothing changes. */
  method RefusedStatusScenario()
  {
    var m := Scenario();
    ghost var before := m.books;
    assert FirstWithId(m.books, 2) == Some(0);
    var outcome := m.ChangeStatus(2, "утеряна");
    assert outcome == InvalidStatus && m.books == before;
  }

  /** The session continued: an unknown ID is reported as not found, before
      the status argument is looked at. */
  method UnknownIdScenario()
  {
    var m := Scenario();
    assert FirstWithId(m.books, 7) == None;
    var outcome := m.ChangeStatus(7, "утеряна");
    assert outcome == NotFound;
  }
}
