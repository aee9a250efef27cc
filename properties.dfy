/** What the handlers of the book directory guarantee: the order in which they
    report errors, what each mutation does to the stored list, that the
    uniqueness of ISBNs is preserved, and that, read as a table keyed by ISBN,
    create, update and delete are insertion, overwrite and removal of one key. */
module DirectoryProperties {
  import opened JsNumber
  import opened Directory

  // ---------------------------------------------------------------------------
  // The keyed-table view

  /** A key is in the table exactly when some record carries it, and it maps to
      the first such record, the one `findIndex` and `find` return. */
  lemma {:induction false} TableLookup(books: seq<Book>, isbn: string)
    ensures isbn in Table(books) <==> HasIsbn(books, isbn)
    ensures HasIsbn(books, isbn) ==> Table(books)[isbn] == books[IndexOfIsbn(books, isbn)]
  {
    if books != [] && books[0].isbn != isbn {
      TableLookup(books[1..], isbn);
      if HasIsbn(books, isbn) {
        var k :| 0 <= k < |books| && books[k].isbn == isbn;
        assert books[1..][k - 1].isbn == isbn;
      }
      if HasIsbn(books[1..], isbn) {
        var k :| 0 <= k < |books[1..]| && books[1..][k].isbn == isbn;
        assert books[k + 1].isbn == isbn;
      }
    }
  }

  /** Appending a record whose ISBN is new adds exactly that key. */
  lemma {:induction false} TableAppendFresh(books: seq<Book>, book: Book)
    requires !HasIsbn(books, book.isbn)
    ensures Table(books + [book]) == Table(books)[book.isbn := book]
  {
    if books != [] {
      assert (books + [book])[1..] == books[1..] + [book];
      TableAppendFresh(books[1..], book);
      assert books[0].isbn != book.isbn;
    }
  }

  /** Overwriting the first record that carries a key, keeping the key, overwrites
      that key's entry and nothing else. */
  lemma {:induction false} TableReplaceFirst(books: seq<Book>, i: nat, book: Book)
    requires i < |books| && books[i].isbn == book.isbn
    requires forall k :: 0 <= k < i ==> books[k].isbn != book.isbn
    ensures Table(books[i := book]) == Table(books)[book.isbn := book]
  {
    if i > 0 {
      assert books[i := book][1..] == books[1..][i - 1 := book];
      TableReplaceFirst(books[1..], i - 1, book);
      assert books[0].isbn != book.isbn;
    }
  }

  /** In a list with unique ISBNs, removing one record removes exactly its key. */
  lemma {:induction false} TableRemove(books: seq<Book>, i: nat)
    requires UniqueIsbns(books) && i < |books|
    ensures Table(books[..i] + books[i + 1..]) == Table(books) - {books[i].isbn}
  {
    var head, rest, key := books[0], books[1..], books[i].isbn;
    assert Table(books) == Table(rest)[head.isbn := head];
    if i == 0 {
      assert books[..0] + books[1..] == rest;
      assert !HasIsbn(rest, key) by {
        forall k | 0 <= k < |rest| ensures rest[k].isbn != key {
          assert rest[k] == books[k + 1];
        }
      }
      TableLookup(rest, key);
    } else {
      var kept := rest[..i - 1] + rest[i..];
      assert books[..i] + books[i + 1..] == [head] + kept;
      assert ([head] + kept)[1..] == kept;
      assert UniqueIsbns(rest) by {
        forall a, b | 0 <= a < b < |rest| ensures rest[a].isbn != rest[b].isbn {
          assert rest[a] == books[a + 1] && rest[b] == books[b + 1];
        }
      }
      assert rest[i - 1].isbn == key;
      TableRemove(rest, i - 1);
      assert head.isbn != key;
      assert Table([head] + kept) == Table(kept)[head.isbn := head];
    }
  }

  // ---------------------------------------------------------------------------
  // GET /books/:isbn

  /** Get answers the table's entry for the key, and 404 when there is none. */
  lemma GetIsTableLookup(books: seq<Book>, isbn: string)
    ensures GetByIsbn(books, isbn)
         == if isbn in Table(books) then Ok(OK, Record(Table(books)[isbn])) else Err(NOT_FOUND, BOOK_NOT_FOUND)
  {
    TableLookup(books, isbn);
  }

  /** Get answers 200 with the first record carrying the key, or 404 when no record does. */
  lemma GetFindsFirst(books: seq<Book>, isbn: string)
    ensures GetByIsbn(books, isbn).Err? <==> !HasIsbn(books, isbn)
    ensures GetByIsbn(books, isbn).Err? ==> GetByIsbn(books, isbn) == Err(NOT_FOUND, BOOK_NOT_FOUND)
    ensures GetByIsbn(books, isbn).Ok? ==>
      (exists i :: 0 <= i < |books| && GetByIsbn(books, isbn) == Ok(OK, Record(books[i]))
        && books[i].isbn == isbn && forall k :: 0 <= k < i ==> books[k].isbn != isbn)
  {
  }

  // ---------------------------------------------------------------------------
  // POST /books

  /** The errors of create, in the order they are checked; each leaves the list as it was. */
  lemma CreateErrorOrder(books: seq<Book>, body: NewBookBody)
    ensures var o := CreateBook(books, body);
      && (o.response.Err? ==> o.books == books)
      && (!NewBookComplete(body) ==> o.response == Err(BAD_REQUEST, FIELDS_REQUIRED))
      && (NewBookComplete(body) && !NumericLooking(body.isbn.value) ==>
            o.response == Err(BAD_REQUEST, ISBN_NOT_A_NUMBER))
      && (NewBookComplete(body) && NumericLooking(body.isbn.value) && HasIsbn(books, body.isbn.value) ==>
            o.response == Err(CONFLICT, ISBN_EXISTS))
  {
  }

  /** Create succeeds exactly when no check fails, and then appends the submitted
      record at the end, answering 201 with it. */
  lemma CreateAppends(books: seq<Book>, body: NewBookBody)
    ensures var o := CreateBook(books, body);
      o.response.Ok? <==>
        NewBookComplete(body) && NumericLooking(body.isbn.value) && !HasIsbn(books, body.isbn.value)
    ensures var o := CreateBook(books, body);
      o.response.Ok? ==>
        && |o.books| == |books| + 1
        && o.books[..|books|] == books
        && o.books[|books|] == Book(body.title.value, body.author.value, body.publisher.value,
                                    body.publishedDate.value, body.isbn.value)
        && o.response == Ok(CREATED, Confirmation(BOOK_ADDED, o.books[|books|]))
  {
  }

  lemma CreateKeepsUnique(books: seq<Book>, body: NewBookBody)
    requires UniqueIsbns(books)
    ensures UniqueIsbns(CreateBook(books, body).books)
  {
  }

  /** A successful create adds exactly the new key to the table. */
  lemma CreateIsTableInsert(books: seq<Book>, body: NewBookBody)
    ensures var o := CreateBook(books, body);
      o.response.Ok? ==> Table(o.books) == Table(books)[body.isbn.value := NewBook(body)]
  {
    if CreateBook(books, body).response.Ok? {
      TableAppendFresh(books, NewBook(body));
    }
  }

  /** After a successful create, getting the new ISBN answers the new record. */
  lemma CreateThenGet(books: seq<Book>, body: NewBookBody)
    ensures var o := CreateBook(books, body);
      o.response.Ok? ==> GetByIsbn(o.books, body.isbn.value) == Ok(OK, Record(NewBook(body)))
  {
    var o := CreateBook(books, body);
    if o.response.Ok? {
      CreateIsTableInsert(books, body);
      GetIsTableLookup(o.books, body.isbn.value);
    }
  }

  /** Creating a second record with an ISBN just created answers 409 and leaves the list alone. */
  lemma CreateTwiceConflicts(books: seq<Book>, first: NewBookBody, second: NewBookBody)
    requires CreateBook(books, first).response.Ok?
    requires NewBookComplete(second) && second.isbn == first.isbn
    ensures var after := CreateBook(books, first).books;
      CreateBook(after, second) == Outcome(Err(CONFLICT, ISBN_EXISTS), after)
  {
    var after := CreateBook(books, first).books;
    assert after[|books|].isbn == second.isbn.value;
  }

  // ---------------------------------------------------------------------------
  // PUT /books/:isbn

  /** The errors of update, in the order they are checked; each leaves the list as it was. */
  lemma UpdateErrorOrder(books: seq<Book>, isbn: string, body: UpdateBody)
    ensures var o := UpdateBook(books, isbn, body);
      && (o.response.Err? ==> o.books == books)
      && (!UpdateComplete(body) ==> o.response == Err(BAD_REQUEST, FIELDS_REQUIRED))
      && (UpdateComplete(body) && !HasIsbn(books, isbn) ==> o.response == Err(NOT_FOUND, BOOK_NOT_FOUND))
  {
  }

  /** A successful update rewrites the four descriptive fields of the first record
      carrying the key, in place; its ISBN, its position and every other record stay. */
  lemma UpdateInPlace(books: seq<Book>, isbn: string, body: UpdateBody)
    ensures UpdateBook(books, isbn, body).response.Ok? <==> UpdateComplete(body) && HasIsbn(books, isbn)
    ensures var o := UpdateBook(books, isbn, body);
      o.response.Ok? ==>
        var i := IndexOfIsbn(books, isbn);
        && |o.books| == |books|
        && (forall k :: 0 <= k < |books| && k != i ==> o.books[k] == books[k])
        && (forall k :: 0 <= k < i ==> books[k].isbn != isbn)
        && o.books[i] == Book(body.title.value, body.author.value, body.publisher.value,
                              body.publishedDate.value, books[i].isbn)
        && books[i].isbn == isbn
        && o.response == Ok(OK, Confirmation(BOOK_UPDATED, o.books[i]))
  {
  }

  lemma UpdateKeepsUnique(books: seq<Book>, isbn: string, body: UpdateBody)
    requires UniqueIsbns(books)
    ensures UniqueIsbns(UpdateBook(books, isbn, body).books)
  {
  }

  /** A successful update revises the table's entry for the key and nothing else. */
  lemma UpdateIsTableWrite(books: seq<Book>, isbn: string, body: UpdateBody)
    ensures var o := UpdateBook(books, isbn, body);
      o.response.Ok? ==>
        isbn in Table(books) && Table(o.books) == Table(books)[isbn := Revised(Table(books)[isbn], body)]
  {
    if UpdateBook(books, isbn, body).response.Ok? {
      var i := IndexOfIsbn(books, isbn);
      TableLookup(books, isbn);
      TableReplaceFirst(books, i, Revised(books[i], body));
    }
  }

  // ---------------------------------------------------------------------------
  // DELETE /books/:isbn

  /** Delete of a missing ISBN answers 404 and leaves the list alone. */
  lemma DeleteMissing(books: seq<Book>, isbn: string)
    requires !HasIsbn(books, isbn)
    ensures DeleteBook(books, isbn) == Outcome(Err(NOT_FOUND, BOOK_NOT_FOUND), books)
  {
  }

  /** Delete of a present ISBN removes the first record carrying it, keeps the
      others in their order, and answers 200 with a one-element list holding the
      removed record. */
  lemma DeleteRemovesFirst(books: seq<Book>, isbn: string)
    requires HasIsbn(books, isbn)
    ensures var o, i := DeleteBook(books, isbn), IndexOfIsbn(books, isbn);
      && books[i].isbn == isbn
      && (forall k :: 0 <= k < i ==> books[k].isbn != isbn)
      && |o.books| == |books| - 1
      && (forall k :: 0 <= k < i ==> o.books[k] == books[k])
      && (forall k :: i <= k < |o.books| ==> o.books[k] == books[k + 1])
      && o.response == Ok(OK, Removal(BOOK_DELETED, [books[i]]))
  {
    var i := IndexOfIsbn(books, isbn);
    assert books[i..i + 1] == [books[i]];
  }

  /** What delete keeps, together with the record it answers, is exactly what was stored. */
  lemma DeleteIsPermutation(books: seq<Book>, isbn: string)
    requires HasIsbn(books, isbn)
    ensures var o := DeleteBook(books, isbn);
      o.response.Ok? && multiset(o.books) + multiset(o.response.payload.removed) == multiset(books)
  {
    var i := IndexOfIsbn(books, isbn);
    assert books == books[..i] + books[i..i + 1] + books[i + 1..];
  }

  lemma DeleteKeepsUnique(books: seq<Book>, isbn: string)
    requires UniqueIsbns(books)
    ensures UniqueIsbns(DeleteBook(books, isbn).books)
  {
    var o := DeleteBook(books, isbn);
    if HasIsbn(books, isbn) {
      var i := IndexOfIsbn(books, isbn);
      forall a, b | 0 <= a < b < |o.books| ensures o.books[a].isbn != o.books[b].isbn {
        var a', b' := if a < i then a else a + 1, if b < i then b else b + 1;
        assert o.books[a] == books[a'] && o.books[b] == books[b'];
      }
    }
  }

  /** With unique ISBNs, delete removes exactly the key from the table. */
  lemma DeleteIsTableRemove(books: seq<Book>, isbn: string)
    requires UniqueIsbns(books)
    ensures Table(DeleteBook(books, isbn).books) == Table(books) - {isbn}
  {
    TableLookup(books, isbn);
    if HasIsbn(books, isbn) {
      TableRemove(books, IndexOfIsbn(books, isbn));
    } else {
      assert Table(books) - {isbn} == Table(books);
    }
  }

  /** With unique ISBNs, a get after a delete of the same ISBN answers 404. */
  lemma DeleteThenGet(books: seq<Book>, isbn: string)
    requires UniqueIsbns(books)
    ensures GetByIsbn(DeleteBook(books, isbn).books, isbn) == Err(NOT_FOUND, BOOK_NOT_FOUND)
  {
    DeleteIsTableRemove(books, isbn);
    GetIsTableLookup(DeleteBook(books, isbn).books, isbn);
  }

  /** At least two stored records carry `isbn`. */
  ghost predicate StoredTwice(books: seq<Book>, isbn: string) {
    exists i, j :: 0 <= i < j < |books| && books[i].isbn == isbn && books[j].isbn == isbn
  }

  /** Exactly when a get after a delete of the same ISBN answers 404: when the
      key was stored at most once, whether or not other keys repeat. */
  lemma DeleteThenGetExactly(books: seq<Book>, isbn: string)
    ensures GetByIsbn(DeleteBook(books, isbn).books, isbn).Err? <==> !StoredTwice(books, isbn)
  {
    var kept := DeleteBook(books, isbn).books;
    if HasIsbn(books, isbn) {
      var i := IndexOfIsbn(books, isbn);
      DeleteRemovesFirst(books, isbn);
      if StoredTwice(books, isbn) {
        var a, b :| 0 <= a < b < |books| && books[a].isbn == isbn && books[b].isbn == isbn;
        assert kept[b - 1] == books[b];
      }
      if HasIsbn(kept, isbn) {
        var k :| 0 <= k < |kept| && kept[k].isbn == isbn;
        assert kept[k] == books[k + 1];
      }
    }
  }

  /** Uniqueness is needed above: a stored list holding two records with the same
      ISBN still answers the second one after the first is deleted. */
  lemma DeleteThenGetFindsDuplicate(first: Book, second: Book)
    requires first.isbn == second.isbn
    ensures GetByIsbn(DeleteBook([first, second], first.isbn).books, first.isbn) == Ok(OK, Record(second))
  {
    assert DeleteBook([first, second], first.isbn).books == [second];
  }
}
