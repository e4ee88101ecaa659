/**
 * The two tables of the catalogue (authors, books) as an in-memory store,
 * and the rules the schema and the handlers keep between them: required
 * columns, a unique ISBN, and every book owned by one existing author.
 */
module Schema {
  import Sorting

  datatype Option<T> = None | Some(value: T)

  /** A calendar date as already parsed from a `YYYY-MM-DD` form field. */
  datatype Date = Date(year: int, month: int, day: int)

  /** A row of `authors`; the row id is the key it is stored under. */
  datatype Author = Author(name: string, birthDate: Option<Date>, dateOfDeath: Option<Date>)

  /** A row of `books`; `authorId` is the foreign key into `authors`. */
  datatype Book = Book(
    isbn: string,
    title: string,
    publicationYear: Option<int>,
    rating: Option<int>,
    authorId: int)

  datatype Store = Store(authors: map<int, Author>, books: map<int, Book>)

  /** The NOT NULL text columns hold a value (never the empty string either). */
  predicate RequiredFields(s: Store) {
    && (forall a :: a in s.authors ==> s.authors[a].name != [])
    && (forall b :: b in s.books ==> s.books[b].isbn != [] && s.books[b].title != [])
  }

  /** `isbn` is UNIQUE. */
  predicate UniqueIsbn(s: Store) {
    forall b1, b2 :: b1 in s.books && b2 in s.books && b1 != b2 ==> s.books[b1].isbn != s.books[b2].isbn
  }

  /** Every book's `author_id` names a row of `authors`. */
  predicate AuthorsExist(s: Store) {
    forall b :: b in s.books ==> s.books[b].authorId in s.authors
  }

  /** The store invariant. */
  predicate Valid(s: Store) {
    RequiredFields(s) && UniqueIsbn(s) && AuthorsExist(s)
  }

  /** `author.books`: the ids of the books whose `author_id` is `authorId`. */
  function BooksOf(books: map<int, Book>, authorId: int): set<int> {
    set b | b in books && books[b].authorId == authorId
  }

  /** Some stored book already carries `isbn`. */
  predicate IsbnTaken(books: map<int, Book>, isbn: string) {
    exists b | b in books :: books[b].isbn == isbn
  }

  /**
   * The id SQLite gives a new row of an INTEGER PRIMARY KEY table: one more
   * than the largest id in the table, or 1 when the table is empty.
   */
  function NextId<T>(rows: map<int, T>): (id: int)
    ensures id !in rows
    ensures forall k :: k in rows ==> k < id
    ensures rows == map[] ==> id == 1
    ensures rows != map[] ==> id - 1 in rows
  {
    if rows == map[] then 1 else Sorting.Largest(rows.Keys) + 1
  }
}
