/** The book directory's records, request bodies and responses, and what each
    of the five HTTP handlers does to the loaded list of records, as functions
    from the list before the request to the response and the list written back. */
module Directory {
  import opened JsNumber

  datatype Option<+T> = None | Some(value: T)

  /** A stored record; every field is kept as the string that was submitted. */
  datatype Book = Book(title: string, author: string, publisher: string, publishedDate: string, isbn: string)

  /** The JSON body of POST /books: each field may be missing. */
  datatype NewBookBody = NewBookBody(
    title: Option<string>, author: Option<string>, publisher: Option<string>,
    publishedDate: Option<string>, isbn: Option<string>)

  /** The JSON body of PUT /books/:isbn; an `isbn` in the body is never read. */
  datatype UpdateBody = UpdateBody(
    title: Option<string>, author: Option<string>, publisher: Option<string>,
    publishedDate: Option<string>)

  datatype Payload =
    | Books(list: seq<Book>)                          // the bare array of GET /books
    | Record(book: Book)                              // the bare record of GET /books/:isbn
    | Confirmation(message: string, book: Book)       // `{ message, book }` after POST and PUT
    | Removal(message: string, removed: seq<Book>)    // `{ message, book }` after DELETE, `book` being what `splice` returned

  datatype Response = Ok(status: int, payload: Payload) | Err(status: int, message: string)

  /** What a handler answers and the list it leaves stored. */
  datatype Outcome = Outcome(response: Response, books: seq<Book>)

  const OK := 200
  const CREATED := 201
  const BAD_REQUEST := 400
  const NOT_FOUND := 404
  const CONFLICT := 409

  const FIELDS_REQUIRED := "All fields are required"
  const ISBN_NOT_A_NUMBER := "ISBN must be a valid number"
  const ISBN_EXISTS := "ISBN already exists"
  const BOOK_NOT_FOUND := "Book not found"
  const BOOK_ADDED := "Book added"
  const BOOK_UPDATED := "Book updated"
  const BOOK_DELETED := "Book deleted"

  /** JavaScript truthiness of a string field: present and not the empty string. */
  predicate Truthy(field: Option<string>) {
    field.Some? && field.value != ""
  }

  predicate NewBookComplete(body: NewBookBody) {
    Truthy(body.title) && Truthy(body.author) && Truthy(body.publisher)
    && Truthy(body.publishedDate) && Truthy(body.isbn)
  }

  predicate UpdateComplete(body: UpdateBody) {
    Truthy(body.title) && Truthy(body.author) && Truthy(body.publisher) && Truthy(body.publishedDate)
  }

  /** Some stored record carries `isbn`. */
  ghost predicate HasIsbn(books: seq<Book>, isbn: string) {
    exists k :: 0 <= k < |books| && books[k].isbn == isbn
  }

  /** The directory's invariant: no two stored records share an ISBN. */
  ghost predicate UniqueIsbns(books: seq<Book>) {
    forall i, j :: 0 <= i < j < |books| ==> books[i].isbn != books[j].isbn
  }

  /** `books.findIndex(b => b.isbn === isbn)`: the index of the first record
      with that ISBN, or -1 when there is none. */
  function IndexOfIsbn(books: seq<Book>, isbn: string): (i: int)
    ensures -1 <= i < |books|
    ensures i == -1 <==> !HasIsbn(books, isbn)
    ensures 0 <= i ==> books[i].isbn == isbn && forall k :: 0 <= k < i ==> books[k].isbn != isbn
  {
    if books == [] then -1
    else if books[0].isbn == isbn then 0
    else
      var j := IndexOfIsbn(books[1..], isbn);
      if j == -1 then -1 else j + 1
  }

  /** GET /books/:isbn: `books.find` on the path parameter. */
  function GetByIsbn(books: seq<Book>, isbn: string): Response {
    var i := IndexOfIsbn(books, isbn);
    if i == -1 then Err(NOT_FOUND, BOOK_NOT_FOUND) else Ok(OK, Record(books[i]))
  }

  /** The record POST /books builds from a complete body. */
  function NewBook(body: NewBookBody): Book
    requires NewBookComplete(body)
  {
    Book(body.title.value, body.author.value, body.publisher.value, body.publishedDate.value, body.isbn.value)
  }

  /** POST /books: presence, then `isNaN`, then the duplicate check, then append. */
  function CreateBook(books: seq<Book>, body: NewBookBody): Outcome {
    if !NewBookComplete(body) then Outcome(Err(BAD_REQUEST, FIELDS_REQUIRED), books)
    else if !NumericLooking(body.isbn.value) then Outcome(Err(BAD_REQUEST, ISBN_NOT_A_NUMBER), books)
    else if IndexOfIsbn(books, body.isbn.value) != -1 then Outcome(Err(CONFLICT, ISBN_EXISTS), books)
    else
      var book := NewBook(body);
      Outcome(Ok(CREATED, Confirmation(BOOK_ADDED, book)), books + [book])
  }

  /** `{ ...book, title, author, publisher, publishedDate }`. */
  function Revised(book: Book, body: UpdateBody): Book
    requires UpdateComplete(body)
  {
    book.(title := body.title.value, author := body.author.value,
          publisher := body.publisher.value, publishedDate := body.publishedDate.value)
  }

  /** PUT /books/:isbn: presence, then lookup, then replacement at the found index. */
  function UpdateBook(books: seq<Book>, isbn: string, body: UpdateBody): Outcome {
    if !UpdateComplete(body) then Outcome(Err(BAD_REQUEST, FIELDS_REQUIRED), books)
    else
      var i := IndexOfIsbn(books, isbn);
      if i == -1 then Outcome(Err(NOT_FOUND, BOOK_NOT_FOUND), books)
      else
        var book := Revised(books[i], body);
        Outcome(Ok(OK, Confirmation(BOOK_UPDATED, book)), books[i := book])
  }

  /** DELETE /books/:isbn: lookup, then `splice(i, 1)`. */
  function DeleteBook(books: seq<Book>, isbn: string): Outcome {
    var i := IndexOfIsbn(books, isbn);
    if i == -1 then Outcome(Err(NOT_FOUND, BOOK_NOT_FOUND), books)
    else Outcome(Ok(OK, Removal(BOOK_DELETED, books[i..i + 1])), books[..i] + books[i + 1..])
  }

  /** The list read as a keyed table: each ISBN maps to the first record that
      carries it, the record every lookup by ISBN finds. */
  function Table(books: seq<Book>): map<string, Book> {
    if books == [] then map[] else Table(books[1..])[books[0].isbn := books[0]]
  }
}
