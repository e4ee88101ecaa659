/**
 * What each form handler of the catalogue does to the store, as one atomic
 * step from the store before the request to the store after it, together
 * with the outcome the handler reports. Form fields arrive as the raw text
 * for text fields and as already-parsed numbers and dates.
 */
module Handlers {
  import opened Text
  import opened Schema

  /** The rating kept for a submitted rating: only 1..10 survives, anything else becomes null. */
  function StoredRating(rating: Option<int>): (r: Option<int>)
    ensures r.Some? <==> rating.Some? && 1 <= rating.value <= 10
    ensures r.Some? ==> r == rating
  {
    if rating.Some? && !(1 <= rating.value <= 10) then None else rating
  }

  /** Python truthiness of the parsed `author_id`: missing and 0 are false. */
  predicate AuthorIdGiven(authorId: Option<int>) {
    authorId.Some? && authorId.value != 0
  }

  /** A submitted author id that passes the check names an existing author, as the form's select offers. */
  predicate AuthorChoiceValid(s: Store, authorId: Option<int>) {
    AuthorIdGiven(authorId) ==> authorId.value in s.authors
  }

  /**
   * `add_author` on POST: a blank name adds nothing; otherwise one new author
   * row with the stripped name and the given dates. The outcome is the new id.
   */
  function AddAuthor(s: Store, name: string, birthDate: Option<Date>, dateOfDeath: Option<Date>): (r: (Store, Option<int>))
    ensures r.1.None? <==> Strip(name) == []
    ensures r.1.None? ==> r.0 == s
    ensures r.1.Some? ==>
      && r.1.value !in s.authors
      && r.0.authors == s.authors[r.1.value := Author(Strip(name), birthDate, dateOfDeath)]
      && r.0.books == s.books
  {
    var stripped := Strip(name);
    if stripped == [] then
      (s, None)
    else
      var id := NextId(s.authors);
      (Store(s.authors[id := Author(stripped, birthDate, dateOfDeath)], s.books), Some(id))
  }

  datatype AddBookOutcome =
    | Added(id: int)
    | Ignored        // a required field was blank: silently nothing happens
    | DuplicateIsbn  // the UNIQUE constraint rejects the insert: nothing is stored

  /**
   * `add_book` on POST: the row is inserted only when the stripped ISBN and
   * title are non-blank and the author id is truthy, and then only when no
   * stored book has that ISBN; the rating is coerced first.
   */
  function AddBook(
    s: Store, isbn: string, title: string,
    publicationYear: Option<int>, rating: Option<int>, authorId: Option<int>): (r: (Store, AddBookOutcome))
    ensures r.1.Ignored? <==> Strip(isbn) == [] || Strip(title) == [] || !AuthorIdGiven(authorId)
    ensures r.1.DuplicateIsbn? <==> !r.1.Ignored? && IsbnTaken(s.books, Strip(isbn))
    ensures !r.1.Added? ==> r.0 == s
    ensures r.1.Added? ==>
      && r.1.id !in s.books
      && r.0.books == s.books[r.1.id := Book(Strip(isbn), Strip(title), publicationYear, StoredRating(rating), authorId.value)]
      && r.0.authors == s.authors
  {
    var isbn', title' := Strip(isbn), Strip(title);
    if isbn' != [] && title' != [] && AuthorIdGiven(authorId) then
      if IsbnTaken(s.books, isbn') then
        (s, DuplicateIsbn)
      else
        var id := NextId(s.books);
        var book := Book(isbn', title', publicationYear, StoredRating(rating), authorId.value);
        (Store(s.authors, s.books[id := book]), Added(id))
    else
      (s, Ignored)
  }

  datatype DeleteBookOutcome = BookNotFound | BookDeleted(authorRemoved: bool)

  /**
   * `delete_book`: remove the book; if its author then has no book left,
   * remove the author too. An unknown id is a 404 and changes nothing.
   */
  function DeleteBook(s: Store, bookId: int): (r: (Store, DeleteBookOutcome))
    ensures r.1.BookNotFound? <==> bookId !in s.books
    ensures r.1.BookNotFound? ==> r.0 == s
    ensures r.1.BookDeleted? ==>
      var a := s.books[bookId].authorId;
      && r.0.books == s.books - {bookId}
      && (r.1.authorRemoved <==> a in s.authors && BooksOf(s.books, a) == {bookId})
      && r.0.authors == if r.1.authorRemoved then s.authors - {a} else s.authors
  {
    if bookId !in s.books then
      (s, BookNotFound)
    else
      var a := s.books[bookId].authorId;
      var books := s.books - {bookId};
      var orphaned := a in s.authors && BooksOf(books, a) == {};
      assert BooksOf(books, a) == BooksOf(s.books, a) - {bookId};
      (Store(if orphaned then s.authors - {a} else s.authors, books), BookDeleted(orphaned))
  }

  /**
   * `delete_author`: remove the author and, by the cascade on `author.books`,
   * every book it owns. An unknown id is a 404 and changes nothing.
   */
  function DeleteAuthor(s: Store, authorId: int): (r: (Store, bool))
    ensures r.1 <==> authorId in s.authors
    ensures !r.1 ==> r.0 == s
    ensures r.1 ==>
      && r.0.authors == s.authors - {authorId}
      && r.0.books.Keys == s.books.Keys - BooksOf(s.books, authorId)
      && forall b :: b in r.0.books ==> r.0.books[b] == s.books[b]
  {
    if authorId !in s.authors then
      (s, false)
    else
      var books := map b | b in s.books && s.books[b].authorId != authorId :: s.books[b];
      (Store(s.authors - {authorId}, books), true)
  }

  /** `book_detail`: the book, or a 404 when the id is unknown. */
  function BookDetail(s: Store, bookId: int): (r: Option<Book>)
    ensures r.None? <==> bookId !in s.books
    ensures r.Some? ==> r.value == s.books[bookId]
  {
    if bookId in s.books then Some(s.books[bookId]) else None
  }

  /** `author_detail`: the author, or a 404 when the id is unknown. */
  function AuthorDetail(s: Store, authorId: int): (r: Option<Author>)
    ensures r.None? <==> authorId !in s.authors
    ensures r.Some? ==> r.value == s.authors[authorId]
  {
    if authorId in s.authors then Some(s.authors[authorId]) else None
  }

  // ---------------------------------------------------------------------------
  // The store invariant is kept by every handler.

  lemma AddAuthorKeepsValid(s: Store, name: string, birthDate: Option<Date>, dateOfDeath: Option<Date>)
    requires Valid(s)
    ensures Valid(AddAuthor(s, name, birthDate, dateOfDeath).0)
  {
  }

  lemma AddBookKeepsValid(
    s: Store, isbn: string, title: string,
    publicationYear: Option<int>, rating: Option<int>, authorId: Option<int>)
    requires Valid(s) && AuthorChoiceValid(s, authorId)
    ensures Valid(AddBook(s, isbn, title, publicationYear, rating, authorId).0)
  {
  }

  lemma DeleteBookKeepsValid(s: Store, bookId: int)
    requires Valid(s)
    ensures Valid(DeleteBook(s, bookId).0)
  {
  }

  lemma DeleteAuthorKeepsValid(s: Store, authorId: int)
    requires Valid(s)
    ensures Valid(DeleteAuthor(s, authorId).0)
  {
  }

  // ---------------------------------------------------------------------------
  // The `author.books` relationship under each handler.

  /** Adding a book puts it in its author's collection and in no other. */
  lemma AddBookJoinsCollection(
    s: Store, isbn: string, title: string,
    publicationYear: Option<int>, rating: Option<int>, authorId: Option<int>)
    requires AddBook(s, isbn, title, publicationYear, rating, authorId).1.Added?
    ensures
      var r := AddBook(s, isbn, title, publicationYear, rating, authorId);
      && BooksOf(r.0.books, authorId.value) == BooksOf(s.books, authorId.value) + {r.1.id}
      && forall a :: a != authorId.value ==> BooksOf(r.0.books, a) == BooksOf(s.books, a)
  {
    var r := AddBook(s, isbn, title, publicationYear, rating, authorId);
    InsertJoinsCollection(s.books, r.1.id, r.0.books[r.1.id]);
  }

  /** Inserting a book under a fresh id adds it to its author's collection only. */
  lemma InsertJoinsCollection(books: map<int, Book>, id: int, book: Book)
    requires id !in books
    ensures BooksOf(books[id := book], book.authorId) == BooksOf(books, book.authorId) + {id}
    ensures forall a :: a != book.authorId ==> BooksOf(books[id := book], a) == BooksOf(books, a)
  {
  }

  /** Deleting a book takes it out of its author's collection and leaves every other collection as it was. */
  lemma DeleteBookLeavesCollection(s: Store, bookId: int)
    requires bookId in s.books
    ensures
      var r := DeleteBook(s, bookId);
      forall a :: BooksOf(r.0.books, a) == BooksOf(s.books, a) - {bookId}
  {
  }

  /**
   * Deleting an author empties its collection (cascade "all, delete-orphan")
   * and leaves the collections of the other authors as they were.
   */
  lemma DeleteAuthorCascades(s: Store, authorId: int)
    requires authorId in s.authors
    ensures
      var r := DeleteAuthor(s, authorId);
      && BooksOf(r.0.books, authorId) == {}
      && forall a :: a != authorId ==> BooksOf(r.0.books, a) == BooksOf(s.books, a)
  {
  }

  /**
   * In a valid store the `books` collections of the authors partition the
   * books: every stored book is in the collection of an existing author, and
   * no book is in two collections.
   */
  lemma BookHasOneOwner(s: Store)
    requires Valid(s)
    ensures forall b :: b in s.books <==> exists a :: a in s.authors && b in BooksOf(s.books, a)
    ensures forall a1, a2 :: a1 != a2 ==> BooksOf(s.books, a1) !! BooksOf(s.books, a2)
  {
    forall b | b in s.books ensures exists a :: a in s.authors && b in BooksOf(s.books, a) {
      var a := s.books[b].authorId;
      assert a in s.authors && b in BooksOf(s.books, a);
    }
  }

  // ---------------------------------------------------------------------------
  // Consequences across several requests.

  /** Submitting the same valid book twice stores it once: the second insert hits the UNIQUE ISBN. */
  lemma ResubmittedBookIsDuplicate(
    s: Store, isbn: string, title: string,
    publicationYear: Option<int>, rating: Option<int>, authorId: Option<int>)
    requires AddBook(s, isbn, title, publicationYear, rating, authorId).1.Added?
    ensures
      var s1 := AddBook(s, isbn, title, publicationYear, rating, authorId).0;
      AddBook(s1, isbn, title, publicationYear, rating, authorId) == (s1, DuplicateIsbn)
  {
    var r := AddBook(s, isbn, title, publicationYear, rating, authorId);
    assert r.0.books[r.1.id].isbn == Strip(isbn);
  }

  /** A newly added author owns no book yet, and its id is positive when all ids were. */
  lemma NewAuthorHasNoBooks(s: Store, name: string, birthDate: Option<Date>, dateOfDeath: Option<Date>)
    requires Valid(s) && Strip(name) != []
    requires forall a :: a in s.authors ==> a > 0
    ensures
      var r := AddAuthor(s, name, birthDate, dateOfDeath);
      r.1.Some? && r.1.value > 0 && BooksOf(r.0.books, r.1.value) == {}
  {
    var r := AddAuthor(s, name, birthDate, dateOfDeath);
    assert r.1.value > 0 by {
      if s.authors != map[] {
        assert Sorting.Largest(s.authors.Keys) in s.authors;
      }
    }
    forall b | b in r.0.books ensures r.0.books[b].authorId != r.1.value {
      assert r.0.books[b].authorId in s.authors;
    }
  }

  /** Deleting the only book of an author removes both and restores the store before the book and author were added. */
  lemma DeleteOnlyBookRemovesAuthor(s: Store, s2: Store, a: int, id: int, author: Author, book: Book)
    requires a !in s.authors && id !in s.books && book.authorId == a
    requires s2 == Store(s.authors[a := author], s.books[id := book])
    requires BooksOf(s2.books, a) == {id}
    ensures DeleteBook(s2, id) == (s, BookDeleted(true))
  {
    assert s2.authors - {a} == s.authors;
    assert s2.books - {id} == s.books;
  }

  /**
   * Add a new author, add a book for it, then delete that book. The book was the author's only one, so the author goes
   * with it and the catalogue is back where it started.
   */
  lemma NewAuthorBookDeleteRoundTrip(
    s: Store, name: string, isbn: string, title: string,
    publicationYear: Option<int>, rating: Option<int>)
    requires Valid(s) && forall a :: a in s.authors ==> a > 0
    requires Strip(name) != [] && Strip(isbn) != [] && Strip(title) != []
    requires !IsbnTaken(s.books, Strip(isbn))
    ensures
      var r1 := AddAuthor(s, name, None, None);
      var r2 := AddBook(r1.0, isbn, title, publicationYear, rating, r1.1);
      && r1.1.Some? && r2.1.Added?
      && r2.0.books[r2.1.id].rating == StoredRating(rating)
      && DeleteBook(r2.0, r2.1.id) == (s, BookDeleted(true))
  {
    NewAuthorHasNoBooks(s, name, None, None);
    var r1 := AddAuthor(s, name, None, None);
    var r2 := AddBook(r1.0, isbn, title, publicationYear, rating, r1.1);
    AddBookJoinsCollection(r1.0, isbn, title, publicationYear, rating, r1.1);
    DeleteOnlyBookRemovesAuthor(s, r2.0, r1.1.value, r2.1.id, r1.0.authors[r1.1.value], r2.0.books[r2.1.id]);
  }
}
