/** The service itself: the stored list of records, and one method per route
    that searches it with a linear scan and changes it in place the way the
    handler changes the loaded array (`push`, assignment at an index, `splice`).
    Each method is tied to the handler function that specifies it, so every
    property proved of those functions holds of the service. */
module Store {
  import opened JsNumber
  import opened Directory
  import DirectoryProperties

  class BookStore {
    /** The contents of the data file: read at the start of every request,
        written back in full after every successful mutation. */
    var books: seq<Book>

    /** Startup: an existing data file is kept as it is; a missing one is created
        holding an empty array. */
    constructor Init(existing: Option<seq<Book>>)
      ensures books == if existing.Some? then existing.value else []
    {
      books := if existing.Some? then existing.value else [];
    }

    /** `books.findIndex(b => b.isbn === isbn)`. */
    method FindIndex(isbn: string) returns (i: int)
      ensures -1 <= i < |books|
      ensures i == -1 <==> !HasIsbn(books, isbn)
      ensures 0 <= i ==> books[i].isbn == isbn && forall k :: 0 <= k < i ==> books[k].isbn != isbn
      ensures i == IndexOfIsbn(books, isbn)
    {
      var n := 0;
      while n < |books|
        invariant 0 <= n <= |books|
        invariant forall k :: 0 <= k < n ==> books[k].isbn != isbn
      {
        if books[n].isbn == isbn {
          return n;
        }
        n := n + 1;
      }
      return -1;
    }

    /** GET /books. */
    method List() returns (r: Response)
      ensures r == Ok(OK, Books(books))
    {
      r := Ok(OK, Books(books));
    }

    /** GET /books/:isbn. */
    method Get(isbn: string) returns (r: Response)
      ensures r == GetByIsbn(books, isbn)
      ensures r.Err? <==> !HasIsbn(books, isbn)
      ensures r.Ok? ==> r.status == OK && r.payload.Record? && r.payload.book.isbn == isbn
    {
      var i := FindIndex(isbn);
      if i == -1 {
        r := Err(NOT_FOUND, BOOK_NOT_FOUND);
      } else {
        r := Ok(OK, Record(books[i]));
      }
    }

    /** POST /books. */
    method Create(body: NewBookBody) returns (r: Response)
      modifies this
      ensures r == CreateBook(old(books), body).response
      ensures books == CreateBook(old(books), body).books
      ensures r.Err? ==> books == old(books)
      ensures r.Ok? ==> books == old(books) + [r.payload.book]
      ensures UniqueIsbns(old(books)) ==> UniqueIsbns(books)
    {
      if !Truthy(body.title) || !Truthy(body.author) || !Truthy(body.publisher)
         || !Truthy(body.publishedDate) || !Truthy(body.isbn) {
        return Err(BAD_REQUEST, FIELDS_REQUIRED);
      }
      var isbn := body.isbn.value;
      if !NumericLooking(isbn) {
        return Err(BAD_REQUEST, ISBN_NOT_A_NUMBER);
      }
      var duplicate := FindIndex(isbn);
      if duplicate != -1 {
        return Err(CONFLICT, ISBN_EXISTS);
      }
      var book := Book(body.title.value, body.author.value, body.publisher.value, body.publishedDate.value, isbn);
      if UniqueIsbns(books) {
        DirectoryProperties.CreateKeepsUnique(books, body);
      }
      books := books + [book];
      r := Ok(CREATED, Confirmation(BOOK_ADDED, book));
    }

    /** PUT /books/:isbn. */
    method Update(isbn: string, body: UpdateBody) returns (r: Response)
      modifies this
      ensures r == UpdateBook(old(books), isbn, body).response
      ensures books == UpdateBook(old(books), isbn, body).books
      ensures r.Err? ==> books == old(books)
      ensures r.Ok? ==> |books| == |old(books)|
      ensures r.Ok? ==> exists i :: 0 <= i < |books| && old(books)[i].isbn == isbn && books == old(books)[i := r.payload.book]
      ensures UniqueIsbns(old(books)) ==> UniqueIsbns(books)
    {
      if !Truthy(body.title) || !Truthy(body.author) || !Truthy(body.publisher) || !Truthy(body.publishedDate) {
        return Err(BAD_REQUEST, FIELDS_REQUIRED);
      }
      var i := FindIndex(isbn);
      if i == -1 {
        return Err(NOT_FOUND, BOOK_NOT_FOUND);
      }
      if UniqueIsbns(books) {
        DirectoryProperties.UpdateKeepsUnique(books, isbn, body);
      }
      books := books[i := books[i].(title := body.title.value, author := body.author.value,
                                    publisher := body.publisher.value, publishedDate := body.publishedDate.value)];
      r := Ok(OK, Confirmation(BOOK_UPDATED, books[i]));
    }

    /** DELETE /books/:isbn. */
    method Delete(isbn: string) returns (r: Response)
      modifies this
      ensures r == DeleteBook(old(books), isbn).response
      ensures books == DeleteBook(old(books), isbn).books
      ensures r.Err? ==> books == old(books)
      ensures r.Ok? ==> exists i :: 0 <= i < |old(books)| && old(books)[i].isbn == isbn && r.payload.removed == [old(books)[i]]
                                 && books == old(books)[..i] + old(books)[i + 1..]
      ensures UniqueIsbns(old(books)) ==> UniqueIsbns(books)
    {
      var i := FindIndex(isbn);
      if i == -1 {
        return Err(NOT_FOUND, BOOK_NOT_FOUND);
      }
      if UniqueIsbns(books) {
        DirectoryProperties.DeleteKeepsUnique(books, isbn);
      }
      var deleted := books[i..i + 1];
      books := books[..i] + books[i + 1..];
      r := Ok(OK, Removal(BOOK_DELETED, deleted));
    }
  }
}
