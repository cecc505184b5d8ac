# Book catalog record store, in Dafny

This project models `BookManager`, the in-memory record store of a
command-line personal library catalog. The store is an ordered list of book
records. Each record has an `id`, `title`, `author`, `year` and `status`. The
status is one of two Russian literals: "в наличии" (in stock) or "выдана"
(checked out). The store supports five operations:

- **add** gives the new record the last record's ID plus one (1 when the list
  is empty) and the status "в наличии", then appends it;
- **delete** removes the record that lookup by ID returns;
- **lookup by ID** returns the first record with that ID, or nothing;
- **search** keeps every record whose field, turned into text and
  lower-cased, equals the lower-cased query;
- **change status** sets the status of the record with that ID. It accepts
  only the two literals.

Every successful change is followed by a rewrite of the whole backing file.

Layout:

- `text.dfy` (module `Text`): stand-ins for Python's `str.lower()` and for
  `str()` on an integer, with the facts that search needs from them. The
  lowering is idempotent. Decimal text spells the number's value, so
  different numbers get different text. Numbers have no letters to lower.
- `books.dfy` (module `Books`): the `Book`, `Status` and `Request`
  datatypes. It also holds the pure queries over a `seq<Book>`: ID
  assignment, lookup, `list.remove` and the search filter. Finally it holds
  the store invariant `Catalogued` (IDs positive and strictly increasing in
  list order) and the lemmas about all of these.
- `manager.dfy` (module `Library`): the class `BookManager`. Its field
  `books: seq<Book>` is `self.books`. Its methods `AddBook`, `DeleteBook` and
  `ChangeStatus` reassign that field, as the source mutates the list in
  place. Each method states the whole new list in terms of the old one. Each
  keeps `Valid()` (= `Catalogued(books)`) whenever it held before. Each says
  when the file is rewritten, through the ghost log `saved`. `Scenario`,
  `CheckOutScenario`, `RefusedStatusScenario` and `UnknownIdScenario` walk
  through a sample session and verify it against these contracts. The
  session adds Dune and Foundation, deletes 1, and adds Neuromancer, which
  gets ID 3. Then it checks out 2, has a bad status refused, and gets an
  unknown ID reported before its status is looked at.

Lookup and search are functions of the record list (`Books.FindBookById`,
`Books.SearchBooks`). In the source they are a generator expression and a
list comprehension over `self.books`, and they change nothing.

Behaviour of the code that is easy to misread:

- `change_status` reports a missing ID before it looks at the status value
  (main.py:78-87). So a bad status for a missing ID gives "not found".
- The docstring of `search_books` (main.py:63) lists `title`, `author` and
  `year` as the keys. The code looks the key up with `book.get(key, "")`
  (main.py:66), so `id` and `status` are searchable too. A key
  that is not a field compares as "". It selects nothing unless the query is
  empty, and then it selects every record (`Books.SearchUnknownKey`).
- The next ID is the last record's ID plus one (main.py:38), not the
  maximum plus one. The two agree on every list the operations can build
  (`Books.NextIdIsMaxPlusOne`). They can disagree on a data file whose
  records are out of ID order: there, "last + 1" can hand out an ID that is
  already in use. The list [2, 1] gets 2 again (`Books.OutOfOrderListReusesId`).
- Deleting the highest ID and then adding hands that ID out again when the
  IDs are dense (`Books.DeleteLastFreesItsId`). This is the "last + 1" rule
  working as written, not a counter.

## Model

| member | source | states |
|---|---|---|
| `Text.Lower` | main.py:66 | `.lower()` keeps the length, leaves no letter of A–Z or U+0400–U+042F, and changes exactly those letters |
| `Text.LowerIdempotent` | main.py:66 | lowering a lowered string changes nothing, so the query's own case is irrelevant |
| `Text.NatToString` | main.py:66 | `str()` of a natural number is a non-empty string of digits whose decimal value is the number, one digit exactly for numbers below 10, no leading zero |
| `Text.IntToString` | main.py:66 | `str()` of an integer starts with `-` exactly for negatives, and digits follow |
| `Text.NatToStringInjective` | main.py:66 | different natural numbers have different decimal text |
| `Text.IntToStringInjective` | main.py:66 | different integers have different decimal text |
| `Text.LowerIntToString` | main.py:66 | lowering the text of a number leaves it unchanged |
| `Books.Spelling` | main.py:42 | each status is stored as a literal that is already lower case |
| `Books.ParseStatus` | main.py:80 | a status text is accepted exactly when it is one of the two literals, compared as is, and the accepted value spells back to the text |
| `Books.SpellingInjective` | main.py:80 | the two literals differ, so the stored text determines the status |
| `Books.ParseSpelling` | main.py:80 | each stored literal is accepted as its own status |
| `Books.CataloguedIdsUnique` | main.py:37-44 | under the store invariant two positions hold the same ID only if they are the same position |
| `Books.NextId` | main.py:38 | the "last ID + 1, or 1 when empty" rule as written: 1 on an empty list, otherwise above the last ID; its properties are in `NextIdIsMaxPlusOne` |
| `Books.NewBook` | main.py:37-43 | the record `add_book` builds carries the requested title, author and year, status "в наличии", and an ID above the last one |
| `Books.MaxId` | main.py:38 | the largest ID of a non-empty list is one of its IDs and bounds all of them |
| `Books.NextIdIsMaxPlusOne` | main.py:38 | under the invariant, "last ID + 1" (1 when empty) is "max ID + 1", is positive and exceeds every ID present |
| `Books.AddKeepsCatalogued` | main.py:37-44 | appending the new record keeps IDs positive and strictly increasing |
| `Books.AddAllDense` | main.py:37-44 | on a list numbered 1..n, each further add appends the requested record with the next number and status "в наличии", and earlier records stay as they were |
| `Books.AddsFromEmptyNumberFromOne` | main.py:38 | adds from an empty store assign IDs 1, 2, 3, … in call order and keep the invariant |
| `Books.OutOfOrderListReusesId` | main.py:38 | on a list out of ID order, "last + 1" can yield an ID already present: the list [2, 1] gets 2 again |
| `Books.FirstWithId` | main.py:106 | the scan stops at the first record with the ID, and reports none exactly when no record has it |
| `Books.FindBookById` | main.py:101-106 | lookup returns none exactly when no record has the ID, otherwise the record at the first position holding that ID |
| `Books.FindInCatalogued` | main.py:106 | under the invariant, lookup returns `b` exactly when `b` is in the list with that ID |
| `Books.FirstIndexOf` | main.py:54 | `list.remove` finds the first position holding an equal element |
| `Books.RemoveFirst` | main.py:54 | `list.remove` drops exactly the first equal element and keeps the order of the rest |
| `Books.RemoveFoundAt` | main.py:52-54 | removing the record lookup returned removes it at the position where lookup stopped |
| `Books.RemoveAtKeepsCatalogued` | main.py:54 | removing any one record keeps the invariant |
| `Books.DeleteExisting` | main.py:52-55 | under the invariant, deleting a present ID removes exactly that record, keeps the others in order, shrinks the list by one, keeps the invariant, and lookup of the ID then finds none |
| `Books.DeleteLastFreesItsId` | main.py:38 | after deleting the last record of a list numbered 1..n, the next add reuses its ID |
| `Books.SetStatus` | main.py:81 | assigning the status changes only that record's status and no other record |
| `Books.SetStatusKeepsCatalogued` | main.py:78-81 | a status change keeps the invariant, and lookup of the ID returns the record with the new status |
| `Books.FieldText` | main.py:66 | `str(book.get(key, ""))` is "" for a key that is not a field, the title or author itself for those keys, and text that lowering leaves unchanged for `id`, `year` and `status`; its properties are in `SearchMember` |
| `Books.Matches` | main.py:66 | the comparison `.lower() == value.lower()` matches only when the field text and the query have the same length, never on a part of the text |
| `Books.SearchBooks` | main.py:66 | the search result keeps list order and holds each matching record as often as the list does, and nothing else |
| `Books.SearchMember` | main.py:66 | a record is in the result exactly when it is in the list and matches |
| `Books.SearchUnknownKey` | main.py:66 | a key that is not a field selects every record for an empty query and none otherwise |
| `Books.SearchIgnoresCase` | main.py:66 | searching for a query or for its lower-cased form gives the same result |
| `Books.SearchByYear` | main.py:66 | searching `year` for the text of `y` finds exactly the records of year `y` (whole-text match, not substring) |
| `Books.SearchById` | main.py:66 | searching `id` for the text of an ID finds exactly the records with that ID |
| `Books.SearchByStatus` | main.py:66 | searching `status` for any casing of a status literal finds exactly the records in that status |
| `Library.BookManager.constructor` | main.py:7-12 | the store starts as the decoded file contents (empty when there is no file) and writes nothing |
| `Library.BookManager.SaveBooks` | main.py:23-28 | saving records the whole current list as the file's new contents |
| `Library.BookManager.AddBook` | main.py:30-45 | appends `Book(last ID + 1 or 1, title, author, year, "в наличии")` at the end, leaves earlier records unchanged, saves, keeps the invariant, and the new ID exceeds all earlier ones |
| `Library.BookManager.DeleteBook` | main.py:48-58 | a present ID: the record lookup returns is removed and the list saved; an absent ID: list and file unchanged; under the invariant the ID is gone afterwards |
| `Library.BookManager.ChangeStatus` | main.py:72-87 | not found first, then invalid status, both leaving list and file unchanged; otherwise only that record's status changes, the list is saved, the invariant is kept, and lookup sees the new status |

## Left out

- Reading the backing file (`load_books`, main.py:14-21): JSON decoding and
  the file-exists test are I/O. The constructor takes the decoded records as
  a parameter. A corrupt file, which raises in the source, is not modelled.
- Writing the backing file (`save_books`, main.py:23-28): only the fact of
  each write and the list written are kept, as the ghost log `saved`. The
  JSON text and file system effects are not modelled.
- Records that a hand-edited file could hold in forms the operations never
  produce: a missing field, a non-integer ID, or a status outside the two
  literals. `Book` always has all five fields, with typed values.
- `display_books` and every `print` (main.py:46, 56-58, 67-70, 83-99):
  console output only. The outcomes it reports are returned as `Outcome`
  values. The search's "nothing found" message is the empty result.
- The interactive menu `main()` (main.py:109-148): `input()` prompts,
  `int()` parsing of IDs and years, lower-casing of the search key, and the
  exception catch-alls.
- `Text.Lower`: lowers only the Latin letters A-Z and the basic Cyrillic
  block (U+0400 to U+042F). Other scripts and special cases of full Unicode
  lower-casing, some of which change the length, are not modelled.
- `Books.RemoveFirst`: requires the element to be present. `list.remove`
  raises on an absent element, but `delete_book` only calls it with a record
  it has just found.
- Aliasing between records: every record in the source is a separate
  dictionary, so an in-place status change affects exactly one list entry.
  The model updates that entry by position.
