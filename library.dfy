/**
 * The catalogue database as the request handlers see it: two tables that
 * each POST handler changes in place, one atomic step per request. Each
 * method follows its handler statement by statement and is proved to land
 * on the store that the matching transition in `Handlers` describes, and to
 * keep the store invariant.
 */
module App {
  import opened Text
  import opened Schema
  import Handlers

  class Library {
    var authors: map<int, Author>
    var books: map<int, Book>

    function Snapshot(): Store
      reads this
    {
      Store(authors, books)
    }

    ghost predicate Valid()
      reads this
    {
      Schema.Valid(Snapshot())
    }

    /** An empty catalogue. */
    constructor ()
      ensures Valid() && authors == map[] && books == map[]
    {
      authors := map[];
      books := map[];
    }

    /** `add_author` on POST. */
    method AddAuthor(name: string, birthDate: Option<Date>, dateOfDeath: Option<Date>) returns (created: Option<int>)
      requires Valid()
      modifies this
      ensures Valid()
      ensures (Snapshot(), created) == Handlers.AddAuthor(old(Snapshot()), name, birthDate, dateOfDeath)
    {
      Handlers.AddAuthorKeepsValid(Snapshot(), name, birthDate, dateOfDeath);
      var stripped := Strip(name);
      created := None;
      if stripped != [] {
        var id := NextId(authors);
        authors := authors[id := Author(stripped, birthDate, dateOfDeath)];
        created := Some(id);
      }
    }

    /**
     * `add_book` on POST. The author id, when it passes the truthiness check,
     * is one the form offered, i.e. an existing author.
     */
    method AddBook(
      isbn: string, title: string,
      publicationYear: Option<int>, rating: Option<int>, authorId: Option<int>)
      returns (outcome: Handlers.AddBookOutcome)
      requires Valid() && Handlers.AuthorChoiceValid(Snapshot(), authorId)
      modifies this
      ensures Valid()
      ensures (Snapshot(), outcome) == Handlers.AddBook(old(Snapshot()), isbn, title, publicationYear, rating, authorId)
    {
      Handlers.AddBookKeepsValid(Snapshot(), isbn, title, publicationYear, rating, authorId);
      var isbn', title' := Strip(isbn), Strip(title);
      var rating' := rating;
      if rating'.Some? && !(1 <= rating'.value <= 10) {
        rating' := None;
      }
      if isbn' != [] && title' != [] && authorId.Some? && authorId.value != 0 {
        if IsbnTaken(books, isbn') {
          // the commit violates UNIQUE(isbn) and nothing is written
          outcome := Handlers.DuplicateIsbn;
        } else {
          var id := NextId(books);
          books := books[id := Book(isbn', title', publicationYear, rating', authorId.value)];
          outcome := Handlers.Added(id);
        }
      } else {
        outcome := Handlers.Ignored;
      }
    }

    /** `delete_book`: delete the book, then its author if that left the author without books. */
    method DeleteBook(bookId: int) returns (outcome: Handlers.DeleteBookOutcome)
      requires Valid()
      modifies this
      ensures Valid()
      ensures (Snapshot(), outcome) == Handlers.DeleteBook(old(Snapshot()), bookId)
    {
      Handlers.DeleteBookKeepsValid(Snapshot(), bookId);
      if bookId !in books {
        return Handlers.BookNotFound;
      }
      var authorId := books[bookId].authorId;
      var hasAuthor := authorId in authors;
      books := books - {bookId};
      outcome := Handlers.BookDeleted(false);
      if hasAuthor {
        var remaining := |set b | b in books && books[b].authorId == authorId|;
        if remaining == 0 {
          authors := authors - {authorId};
          outcome := Handlers.BookDeleted(true);
        }
      }
    }

    /** `delete_author`: delete the author and, by the cascade, all of its books. */
    method DeleteAuthor(authorId: int) returns (found: bool)
      requires Valid()
      modifies this
      ensures Valid()
      ensures (Snapshot(), found) == Handlers.DeleteAuthor(old(Snapshot()), authorId)
    {
      Handlers.DeleteAuthorKeepsValid(Snapshot(), authorId);
      if authorId !in authors {
        return false;
      }
      books := map b | b in books && books[b].authorId != authorId :: books[b];
      authors := authors - {authorId};
      found := true;
    }
  }
}
