# Book directory: a Dafny model of its record store

The book directory is a small HTTP service that keeps one ordered list of book
records (`title`, `author`, `publisher`, `publishedDate`, `isbn`, all strings) in
a JSON file and exposes five routes over it: list all, get by ISBN, create,
update by ISBN and delete by ISBN. Every request that passes validation loads
the whole list, works on it in memory, and writes the whole list back after a
successful change.

This project models that in-memory logic:

- `numeric.dfy`, module `JsNumber`: the `isNaN` test the create route applies
  to the submitted ISBN. A string passes (is `NumericLooking`) exactly when,
  after trimming ECMAScript white space and line terminators, it is empty or a
  StrNumericLiteral (the StringNumericLiteral grammar of section 7.1.4.1.1 of
  ECMA-262 without its surrounding white space): an optionally signed decimal
  with optional fraction and exponent, an optionally signed `Infinity`, or an
  unsigned `0b`/`0o`/`0x` integer.
- `directory.dfy`, module `Directory`: the records, request bodies (each field
  an `Option<string>`; JavaScript's falsy test on a string field means "missing
  or empty"), responses (status plus payload, or status plus the source's error
  message), the linear search `IndexOfIsbn` (`findIndex`, with `-1` for "not
  found"), and one function per route from the stored list to the response and
  the list written back. `Table` reads the list as a map from ISBN to the first
  record that carries it.
- `properties.dfy`, module `DirectoryProperties`: what the routes guarantee:
  the order of the error checks, that every error leaves the list unchanged,
  that create appends, update replaces at one index and delete removes one
  index keeping the order, that ISBN uniqueness is preserved, and that, as a
  keyed table, create/update/delete are insert/overwrite/remove of one key and
  get is lookup.
- `store.dfy`, module `Store`: class `BookStore` whose field `books` is the
  stored list. Each route is a method that searches with a loop (`FindIndex`)
  and updates `books` the way the handler updates the loaded array (`push`,
  assignment at the found index, `splice`); each method's postcondition ties
  its response and the new list to the route's function above, so every
  property proved there holds of the service.

Details of the code's behaviour that the model keeps, including where it is
looser than, or different from, what a client of a REST service would expect:

- DELETE answers the removed record inside a one-element list, because
  `splice` returns an array (the payload `Removal` holds a `seq<Book>`).
- A field that is present but empty counts as missing (400).
- The ISBN check is JavaScript's `isNaN`, which is looser than "numeric": a
  blank ISBN such as `"   "` converts to 0 and is accepted (`BlankIsNumeric`),
  as are `"Infinity"`, `"1e5"` and `"0x1F"`; a hyphenated ISBN is rejected
  (`HyphenatedIsRejected`).
- Uniqueness of ISBNs is not re-checked when the file is read; delete then get
  answers 404 when the stored ISBNs are unique (`DeleteThenGet`), exactly when
  the key was stored at most once (`DeleteThenGetExactly`), and
  `DeleteThenGetFindsDuplicate` shows a stored duplicate that survives.

## Model

| member | source | states |
|---|---|---|
| `JsNumber.DigitStringIsNumeric` | server.js:54-56 | every non-empty string of decimal digits passes the `isNaN` check |
| `JsNumber.HyphenatedIsRejected` | server.js:54-56 | a string of digits and hyphens starting and ending with a digit and holding a hyphen fails the `isNaN` check (400) |
| `JsNumber.BlankIsNumeric` | server.js:54-56 | a string made only of white space passes the `isNaN` check, since it converts to 0 |
| `Directory.IndexOfIsbn` | server.js:84 | `findIndex`: -1 exactly when no record has the ISBN, otherwise an index whose record has it and before which none does |
| `DirectoryProperties.TableLookup` | server.js:36 | the ISBN is a key of the table iff some record carries it, and the key maps to the first such record |
| `DirectoryProperties.TableAppendFresh` | server.js:67 | appending a record with a new ISBN adds exactly that key to the table |
| `DirectoryProperties.TableReplaceFirst` | server.js:91 | overwriting the first record with an ISBN, keeping the ISBN, overwrites exactly that key's entry |
| `DirectoryProperties.TableRemove` | server.js:108 | with unique ISBNs, removing the record at an index removes exactly its key from the table |
| `DirectoryProperties.GetIsTableLookup` | server.js:34-42 | get answers 200 with the table's entry for the key, or 404 "Book not found" when the key is absent |
| `DirectoryProperties.GetFindsFirst` | server.js:34-42 | get fails iff no record has the ISBN, failing with 404; otherwise answers 200 with the first record that has it |
| `DirectoryProperties.CreateErrorOrder` | server.js:50-64 | create answers 400 "All fields are required" for any missing or empty field, else 400 "ISBN must be a valid number" if `isNaN`, else 409 if the ISBN is stored; every error leaves the list unchanged |
| `DirectoryProperties.CreateAppends` | server.js:66-70 | create succeeds iff all checks pass; then the list grows by one, earlier records are unchanged, the last is the submitted record, and the answer is 201 "Book added" with it |
| `DirectoryProperties.CreateKeepsUnique` | server.js:61-67 | create preserves pairwise-distinct ISBNs |
| `DirectoryProperties.CreateIsTableInsert` | server.js:61-67 | a successful create inserts the new ISBN with the new record into the table and changes nothing else |
| `DirectoryProperties.CreateThenGet` | server.js:61-67 | after a successful create, get on its ISBN answers 200 with the new record |
| `DirectoryProperties.CreateTwiceConflicts` | server.js:61-64 | a second create with an ISBN just created answers 409 "ISBN already exists" and leaves the list unchanged |
| `DirectoryProperties.UpdateErrorOrder` | server.js:79-88 | update answers 400 for any missing or empty field before looking up, else 404 if no record has the ISBN; each error leaves the list unchanged |
| `DirectoryProperties.UpdateInPlace` | server.js:84-94 | update succeeds iff the body is complete and the ISBN is stored; then only the first matching record changes, getting the four submitted fields and keeping its ISBN and position, and the answer is 200 "Book updated" with it |
| `DirectoryProperties.UpdateKeepsUnique` | server.js:84-92 | update preserves pairwise-distinct ISBNs |
| `DirectoryProperties.UpdateIsTableWrite` | server.js:84-92 | a successful update revises the table entry of the key and changes nothing else |
| `DirectoryProperties.DeleteMissing` | server.js:101-105 | delete of an ISBN no record has answers 404 and leaves the list unchanged |
| `DirectoryProperties.DeleteRemovesFirst` | server.js:101-111 | delete of a stored ISBN removes the first matching record only, length drops by one, the others keep their order, and the answer is 200 "Book deleted" with a one-element list of the removed record |
| `DirectoryProperties.DeleteIsPermutation` | server.js:107-111 | the records kept plus the record answered are exactly the records stored before |
| `DirectoryProperties.DeleteKeepsUnique` | server.js:101-109 | delete preserves pairwise-distinct ISBNs |
| `DirectoryProperties.DeleteIsTableRemove` | server.js:101-109 | with unique ISBNs, delete removes exactly the key from the table |
| `DirectoryProperties.DeleteThenGet` | server.js:101-109 | with unique ISBNs, get after delete of the same ISBN answers 404 |
| `DirectoryProperties.DeleteThenGetExactly` | server.js:101-109 | get after delete of the same ISBN answers 404 if and only if the key was stored at most once |
| `DirectoryProperties.DeleteThenGetFindsDuplicate` | server.js:101-109 | without unique ISBNs, get after delete can still answer a second record with the same ISBN |
| `Store.BookStore.Init` | server.js:11-14 | at startup the stored list is the existing file's list, or empty when there is no file |
| `Store.BookStore.FindIndex` | server.js:84 | the linear scan returns -1 iff no record has the ISBN, else the first index of a record that has it |
| `Store.BookStore.List` | server.js:28-31 | answers 200 with the whole stored list, in order |
| `Store.BookStore.Get` | server.js:34-42 | answers what `GetByIsbn` answers: 404 iff no record has the ISBN, else 200 with a record that has it |
| `Store.BookStore.Create` | server.js:46-70 | response and new list are those of `CreateBook`; an error leaves the list unchanged, a success appends the answered record; uniqueness is kept |
| `Store.BookStore.Update` | server.js:74-94 | response and new list are those of `UpdateBook`; an error leaves the list unchanged, a success replaces one record with that ISBN at its index; uniqueness is kept |
| `Store.BookStore.Delete` | server.js:98-111 | response and new list are those of `DeleteBook`; an error leaves the list unchanged, a success removes one record with that ISBN and answers it in a one-element list; uniqueness is kept |

## Left out

- File persistence (server.js:9-25): checking for, reading and writing the JSON
  file, JSON parsing and two-space pretty-printing. The stored list is the
  field `books`; "write back" is the assignment to it. A file that cannot be
  read or parsed is not modelled, nor is one that parses but does not hold an
  array of objects (such as `{}` for every lookup, or `[null]` for get, update
  and delete by ISBN), on which `find`/`findIndex` or `b.isbn` throw and the
  server answers 500: the model assumes the file holds a list of books.
- HTTP plumbing: Express routing, body parsing, the `res.status().json()`
  framing and `app.listen` (server.js:1-6, 115-117). A response is a status and
  a payload or message.
- Read-modify-write races between concurrent requests: each method runs alone.
- Non-string JSON values in request bodies: every field is `Option<string>`, so
  JavaScript truthiness of numbers, booleans or objects and `isNaN` of a JSON
  number are not modelled; in particular a JSON-number ISBN, which would never
  `===`-match the string path parameter, cannot be expressed.
- Fields of a stored record other than the five named ones, which the source's
  `{ ...books[bookIndex], ... }` would carry over on update.
- An `isbn` in the PUT body: the source never reads it, so `UpdateBody` has no
  such field.
