/** Book records and the pure queries over the catalog's ordered record list:
    ID assignment, lookup by ID, removal and search by field. */
module Books {
  import opened Text

  datatype Option<T> = None | Some(value: T)

  /** The circulation state of a copy. The catalog stores it as one of two
      Russian literals: "в наличии" (in stock) and "выдана" (checked out). */
  datatype Status = Available | Issued

  /** One catalog entry; every field of the stored record is always present. */
  datatype Book = Book(id: int, title: string, author: string, year: int, status: Status)

  /** What a caller asks `add_book` for; the store supplies the ID and the status. */
  datatype Request = Request(title: string, author: string, year: int)

  /** The literal the catalog stores for a status. */
  function Spelling(s: Status): (r: string)
    ensures Lower(r) == r
  {
    match s
    case Available => LowerLowercaseCyrillic("в наличии"); "в наличии"
    case Issued => LowerLowercaseCyrillic("выдана"); "выдана"
  }

  /** The two literals differ, so the stored text determines the status. */
  lemma SpellingInjective(a: Status, b: Status)
    requires Spelling(a) == Spelling(b)
    ensures a == b
  {
    assert |Spelling(Available)| == 9 && |Spelling(Issued)| == 6;
  }

  /** Accepts exactly the two stored literals, compared as they are
      (`"Выдана"` is refused), and inverts `Spelling` on them. */
  function ParseStatus(t: string): (r: Option<Status>)
    ensures r.Some? ==> Spelling(r.value) == t
    ensures r.None? <==> t != Spelling(Available) && t != Spelling(Issued)
  {
    if t == "в наличии" then Some(Available)
    else if t == "выдана" then Some(Issued)
    else None
  }

  lemma ParseSpelling(s: Status)
    ensures ParseStatus(Spelling(s)) == Some(s)
  {
    if Spelling(Available) == Spelling(Issued) {
      SpellingInjective(Available, Issued);
    }
  }

  // ---------------------------------------------------------------------------
  // The store invariant

  /** IDs strictly increase along the list. */
  predicate IdsIncreasing(books: seq<Book>)
  {
    forall i, j :: 0 <= i < j < |books| ==> books[i].id < books[j].id
  }

  /** The invariant every catalog operation keeps: IDs are positive and
      strictly increase in list order (hence unique). */
  predicate Catalogued(books: seq<Book>)
  {
    IdsIncreasing(books) && forall k :: 0 <= k < |books| ==> books[k].id >= 1
  }

  lemma CataloguedIdsUnique(books: seq<Book>, i: int, j: int)
    requires Catalogued(books)
    requires 0 <= i < |books| && 0 <= j < |books|
    ensures books[i].id == books[j].id <==> i == j
  {
  }

  // ---------------------------------------------------------------------------
  // ID assignment (add_book)

  /** The ID `add_book` gives a new record: the LAST record's ID plus one,
      or 1 for an empty list. */
  function NextId(books: seq<Book>): (r: int)
    ensures books == [] ==> r == 1
    ensures books != [] ==> r > books[|books| - 1].id
  {
    if books == [] then 1 else books[|books| - 1].id + 1
  }

  /** The largest ID in a non-empty list, by its own recursion. */
  function MaxId(books: seq<Book>): (m: int)
    requires books != []
    ensures exists k :: 0 <= k < |books| && books[k].id == m
    ensures forall k :: 0 <= k < |books| ==> books[k].id <= m
  {
    if |books| == 1 then books[0].id
    else
      var rest := MaxId(books[1..]);
      assert forall k :: 1 <= k < |books| ==> books[k] == books[1..][k - 1];
      if books[0].id >= rest then books[0].id else rest
  }

  /** On a catalogued list "last + 1" is "max + 1", and the new ID is
      positive and larger than every ID already present. */
  lemma {:induction false} NextIdIsMaxPlusOne(books: seq<Book>)
    requires Catalogued(books)
    ensures NextId(books) == if books == [] then 1 else MaxId(books) + 1
    ensures NextId(books) >= 1
    ensures forall k :: 0 <= k < |books| ==> books[k].id < NextId(books)
  {
    if books != [] {
      var last := |books| - 1;
      var m := MaxId(books);
      var k :| 0 <= k < |books| && books[k].id == m;
      assert books[k].id <= books[last].id;
    }
  }

  /** The record `add_book` appends: the requested fields, the next ID and
      status "в наличии". */
  function NewBook(books: seq<Book>, req: Request): (b: Book)
    ensures Request(b.title, b.author, b.year) == req
    ensures b.status == Available
    ensures books != [] ==> b.id > books[|books| - 1].id
  {
    Book(NextId(books), req.title, req.author, req.year, Available)
  }

  /** Appending the new record keeps the catalogue invariant. */
  lemma AddKeepsCatalogued(books: seq<Book>, req: Request)
    requires Catalogued(books)
    ensures Catalogued(books + [NewBook(books, req)])
  {
    NextIdIsMaxPlusOne(books);
  }

  /** The list after a run of `add_book` calls, in order. */
  function AddAll(books: seq<Book>, reqs: seq<Request>): seq<Book>
    decreases |reqs|
  {
    if reqs == [] then books else AddAll(books + [NewBook(books, reqs[0])], reqs[1..])
  }

  /** The k-th record carries ID k + 1. */
  predicate Dense(books: seq<Book>)
  {
    forall k :: 0 <= k < |books| ==> books[k].id == k + 1
  }

  /** Adds keep a dense list dense: each request becomes the next record,
      with the next ID in sequence and status "в наличии". */
  lemma {:induction false} AddAllDense(books: seq<Book>, reqs: seq<Request>)
    requires Dense(books)
    ensures |AddAll(books, reqs)| == |books| + |reqs|
    ensures AddAll(books, reqs)[..|books|] == books
    ensures Dense(AddAll(books, reqs))
    ensures forall k :: 0 <= k < |reqs| ==>
      AddAll(books, reqs)[|books| + k] == Book(|books| + k + 1, reqs[k].title, reqs[k].author, reqs[k].year, Available)
    decreases |reqs|
  {
    if reqs != [] {
      var next := books + [NewBook(books, reqs[0])];
      assert NewBook(books, reqs[0]).id == |books| + 1;
      AddAllDense(next, reqs[1..]);
      var r := AddAll(books, reqs);
      assert r == AddAll(next, reqs[1..]);
      assert r[..|books|] == next[..|books|];
      forall k | 0 <= k < |reqs|
        ensures r[|books| + k] == Book(|books| + k + 1, reqs[k].title, reqs[k].author, reqs[k].year, Available)
      {
        if k > 0 {
          assert reqs[1..][k - 1] == reqs[k];
          assert r[|next| + (k - 1)] == r[|books| + k];
        } else {
          assert r[|books|] == r[..|next|][|books|] == next[|books|];
        }
      }
    }
  }

  /** From an empty catalogue, the n-th add assigns ID n. */
  lemma AddsFromEmptyNumberFromOne(reqs: seq<Request>)
    ensures |AddAll([], reqs)| == |reqs|
    ensures forall k :: 0 <= k < |reqs| ==> AddAll([], reqs)[k].id == k + 1
    ensures Catalogued(AddAll([], reqs))
  {
    AddAllDense([], reqs);
  }

  /** A list out of ID order (a hand-edited or foreign data file) makes
      "last + 1" hand out an ID that is already taken. */
  lemma OutOfOrderListReusesId()
    ensures var books := [Book(2, "A", "X", 2001, Available), Book(1, "B", "Y", 2002, Available)];
      NextId(books) == books[0].id
  {
  }

  // ---------------------------------------------------------------------------
  // Lookup by ID (find_book_by_id)

  /** Position of the first record carrying `id`, scanning from the front. */
  function FirstWithId(books: seq<Book>, id: int): (r: Option<nat>)
    ensures r.None? <==> forall k :: 0 <= k < |books| ==> books[k].id != id
    ensures r.Some? ==> r.value < |books| && books[r.value].id == id
    ensures r.Some? ==> forall k :: 0 <= k < r.value ==> books[k].id != id
  {
    if books == [] then None
    else if books[0].id == id then Some(0)
    else
      match FirstWithId(books[1..], id)
      case None => None
      case Some(k) => Some(k + 1)
  }

  /** `find_book_by_id`: the first record with the given ID, or none. */
  function FindBookById(books: seq<Book>, id: int): (r: Option<Book>)
    ensures r.None? <==> forall k :: 0 <= k < |books| ==> books[k].id != id
    ensures r.Some? ==> r.value in books && r.value.id == id
    ensures r.Some? ==> (exists k :: 0 <= k < |books| && books[k] == r.value && (forall j :: 0 <= j < k ==> books[j].id != id))
  {
    match FirstWithId(books, id)
    case None => None
    case Some(k) => Some(books[k])
  }

  /** With unique IDs, "first match" is simply "the match". */
  lemma FindInCatalogued(books: seq<Book>, id: int, b: Book)
    requires Catalogued(books)
    ensures FindBookById(books, id) == Some(b) <==> b in books && b.id == id
  {
    if b in books && b.id == id {
      var k :| 0 <= k < |books| && books[k] == b;
      var f := FirstWithId(books, id);
      assert f.Some?;
      CataloguedIdsUnique(books, k, f.value);
    }
  }

  // ---------------------------------------------------------------------------
  // Removal (list.remove, as delete_book uses it)

  /** Position of the first element equal to `x`. */
  function FirstIndexOf(s: seq<Book>, x: Book): (i: nat)
    requires x in s
    ensures i < |s| && s[i] == x && x !in s[..i]
  {
    if s[0] == x then 0
    else
      var i := FirstIndexOf(s[1..], x) + 1;
      assert s[..i] == [s[0]] + s[1..][..i - 1];
      i
  }

  /** `list.remove(x)`: drops the first element equal to `x`, keeping the
      order of the others. */
  function RemoveFirst(s: seq<Book>, x: Book): (r: seq<Book>)
    requires x in s
    ensures |r| == |s| - 1
    ensures var i := FirstIndexOf(s, x); r == s[..i] + s[i + 1..]
  {
    if s[0] == x then s[1..]
    else
      var rest := RemoveFirst(s[1..], x);
      DropAfterHead(s, FirstIndexOf(s[1..], x));
      [s[0]] + rest
  }

  /** Dropping position i of the tail, then putting the head back, drops
      position i + 1 of the whole. */
  lemma DropAfterHead(s: seq<Book>, i: nat)
    requires i + 1 < |s|
    ensures [s[0]] + (s[1..][..i] + s[1..][i + 1..]) == s[..i + 1] + s[i + 2..]
  {
    assert [s[0]] + s[1..][..i] == s[..i + 1];
  }

  /** Removing the record `find_book_by_id` returned removes exactly the
      record at the position the search stopped at. */
  lemma RemoveFoundAt(books: seq<Book>, id: int)
    requires FindBookById(books, id).Some?
    ensures FirstIndexOf(books, FindBookById(books, id).value) == FirstWithId(books, id).value
  {
    var b := FindBookById(books, id).value;
    var k := FirstWithId(books, id).value;
    var i := FirstIndexOf(books, b);
    assert books[i].id == id;
  }

  /** Deleting the record at `k` keeps the catalogue invariant. */
  lemma RemoveAtKeepsCatalogued(books: seq<Book>, k: nat)
    requires Catalogued(books) && k < |books|
    ensures Catalogued(books[..k] + books[k + 1..])
  {
    var r := books[..k] + books[k + 1..];
    forall i | 0 <= i < |r| ensures r[i] == books[if i < k then i else i + 1] {
    }
  }

  /** `delete_book` on a catalogued list with the ID present: exactly that
      record leaves, the others keep their order, the invariant holds and a
      later lookup of the ID finds nothing. */
  lemma {:induction false} DeleteExisting(books: seq<Book>, id: int)
    requires Catalogued(books)
    requires FindBookById(books, id).Some?
    ensures var k := FirstWithId(books, id).value;
      var r := RemoveFirst(books, FindBookById(books, id).value);
      && books[k].id == id
      && r == books[..k] + books[k + 1..]
      && |r| == |books| - 1
      && Catalogued(r)
      && FindBookById(r, id).None?
  {
    var k := FirstWithId(books, id).value;
    RemoveFoundAt(books, id);
    RemoveAtKeepsCatalogued(books, k);
    var r := books[..k] + books[k + 1..];
    forall i | 0 <= i < |r| ensures r[i].id != id {
      var j := if i < k then i else i + 1;
      assert r[i] == books[j];
      CataloguedIdsUnique(books, j, k);
    }
  }

  /** Once the last record of a dense list is deleted, the next add hands
      out the deleted record's ID again. */
  lemma DeleteLastFreesItsId(books: seq<Book>)
    requires Dense(books) && books != []
    ensures var last := books[|books| - 1];
      NextId(RemoveFirst(books, last)) == last.id
  {
    var last := books[|books| - 1];
    var i := FirstIndexOf(books, last);
    assert books[i].id == i + 1;
    assert i == |books| - 1;
  }

  // ---------------------------------------------------------------------------
  // Status change (change_status)

  /** The list after setting the status of the record at `k`. */
  function SetStatus(books: seq<Book>, k: nat, s: Status): (r: seq<Book>)
    requires k < |books|
    ensures |r| == |books|
    ensures r[k] == books[k].(status := s)
    ensures forall i :: 0 <= i < |books| && i != k ==> r[i] == books[i]
  {
    books[k := books[k].(status := s)]
  }

  /** A status change keeps every ID in place, so the invariant holds, and a
      lookup of the ID finds the updated record. */
  lemma SetStatusKeepsCatalogued(books: seq<Book>, id: int, s: Status)
    requires Catalogued(books)
    requires FirstWithId(books, id).Some?
    ensures var k := FirstWithId(books, id).value;
      && Catalogued(SetStatus(books, k, s))
      && FindBookById(SetStatus(books, k, s), id) == Some(books[k].(status := s))
  {
    var k := FirstWithId(books, id).value;
    var r := SetStatus(books, k, s);
    assert forall i :: 0 <= i < |r| ==> r[i].id == books[i].id;
    assert FirstWithId(r, id) == Some(k);
  }

  // ---------------------------------------------------------------------------
  // Search (search_books)

  /** The keys of a stored record. */
  datatype Field = IdField | TitleField | AuthorField | YearField | StatusField

  /** The field a dictionary key names, if any. */
  function FieldOf(key: string): Option<Field>
  {
    match key
    case "id" => Some(IdField)
    case "title" => Some(TitleField)
    case "author" => Some(AuthorField)
    case "year" => Some(YearField)
    case "status" => Some(StatusField)
    case _ => None
  }

  predicate IsField(key: string)
  {
    FieldOf(key).Some?
  }

  /** `str(book.get(key, ""))`: the text of the named field, or "" for a
      key that is not a field of the record. Only the free-text fields can
      hold letters that lowering changes. */
  function FieldText(b: Book, key: string): (r: string)
    ensures !IsField(key) ==> r == ""
    ensures FieldOf(key) == Some(TitleField) ==> r == b.title
    ensures FieldOf(key) == Some(AuthorField) ==> r == b.author
    ensures FieldOf(key) != Some(TitleField) && FieldOf(key) != Some(AuthorField) ==> Lower(r) == r
  {
    match FieldOf(key)
    case None => ""
    case Some(IdField) => LowerIntToString(b.id); IntToString(b.id)
    case Some(TitleField) => b.title
    case Some(AuthorField) => b.author
    case Some(YearField) => LowerIntToString(b.year); IntToString(b.year)
    case Some(StatusField) => Spelling(b.status)
  }

  /** Case-insensitive equality of the whole field text with the query:
      never a match on part of the text. */
  function Matches(b: Book, key: string, value: string): (r: bool)
    ensures r ==> |FieldText(b, key)| == |value|
  {
    Lower(FieldText(b, key)) == Lower(value)
  }

  /** `r` is `s` with some elements left out and the rest in the same order. */
  predicate IsSubsequence(r: seq<Book>, s: seq<Book>)
    decreases |s|
  {
    if r == [] then true
    else if s == [] then false
    else (r[0] == s[0] && IsSubsequence(r[1..], s[1..])) || IsSubsequence(r, s[1..])
  }

  /** The search filter of `search_books`: every matching record, each as
      often as it occurs, in list order, and nothing else. */
  function SearchBooks(books: seq<Book>, key: string, value: string): (r: seq<Book>)
    ensures IsSubsequence(r, books)
    ensures forall b :: multiset(r)[b] == if Matches(b, key, value) then multiset(books)[b] else 0
  {
    if books == [] then []
    else
      var rest := SearchBooks(books[1..], key, value);
      assert books == [books[0]] + books[1..];
      if Matches(books[0], key, value) then
        assert ([books[0]] + rest)[1..] == rest;
        [books[0]] + rest
      else
        assert rest != [] ==> IsSubsequence(rest, books) by {
          if rest != [] {
            assert !(rest == [] || books == []);
          }
        }
        rest
  }

  lemma SearchMember(books: seq<Book>, key: string, value: string, b: Book)
    ensures b in SearchBooks(books, key, value) <==> b in books && Matches(b, key, value)
  {
    var r := SearchBooks(books, key, value);
    assert b in r <==> multiset(r)[b] > 0;
    assert b in books <==> multiset(books)[b] > 0;
  }

  /** A key that names no field is compared as "": it selects every record
      when the query is empty and none otherwise. */
  lemma {:induction false} SearchUnknownKey(books: seq<Book>, key: string, value: string)
    requires !IsField(key)
    ensures SearchBooks(books, key, value) == if value == "" then books else []
  {
    if books != [] {
      SearchUnknownKey(books[1..], key, value);
      assert Matches(books[0], key, value) <==> |value| == 0;
      assert books == [books[0]] + books[1..];
    }
  }

  /** The query's case does not matter. */
  lemma {:induction false} SearchIgnoresCase(books: seq<Book>, key: string, value: string)
    ensures SearchBooks(books, key, value) == SearchBooks(books, key, Lower(value))
  {
    LowerIdempotent(value);
    if books != [] {
      SearchIgnoresCase(books[1..], key, value);
    }
  }

  /** Searching "year" for the decimal text of `y` finds exactly the
      records published in `y`; "20" does not find 2020. */
  lemma SearchByYear(books: seq<Book>, y: int, b: Book)
    ensures b in SearchBooks(books, "year", IntToString(y)) <==> b in books && b.year == y
  {
    SearchMember(books, "year", IntToString(y), b);
    LowerIntToString(y);
    LowerIntToString(b.year);
    if Matches(b, "year", IntToString(y)) {
      IntToStringInjective(b.year, y);
    }
  }

  /** Searching "id" for the decimal text of `id` finds exactly the records with that ID. */
  lemma SearchById(books: seq<Book>, id: int, b: Book)
    ensures b in SearchBooks(books, "id", IntToString(id)) <==> b in books && b.id == id
  {
    SearchMember(books, "id", IntToString(id), b);
    LowerIntToString(id);
    LowerIntToString(b.id);
    if Matches(b, "id", IntToString(id)) {
      IntToStringInjective(b.id, id);
    }
  }

  /** Searching "status" for any casing of a status literal finds exactly
      the records in that status. */
  lemma SearchByStatus(books: seq<Book>, value: string, s: Status, b: Book)
    requires Lower(value) == Spelling(s)
    ensures b in SearchBooks(books, "status", value) <==> b in books && b.status == s
  {
    SearchMember(books, "status", value, b);
    assert FieldOf("status") == Some(StatusField);
    assert Lower(FieldText(b, "status")) == Spelling(b.status);
    if Spelling(b.status) == Spelling(s) {
      SpellingInjective(b.status, s);
    }
  }
}
