# Book catalogue storage rules, in Dafny

This project models the storage rules of a small library-catalogue web application (Flask over SQLAlchemy and SQLite). The catalogue has two tables:

- **authors**: a required name, plus an optional birth date and an optional date of death.
- **books**: a required and unique ISBN, a required title, an optional publication year, an optional rating, and the id of the owning author.

The model covers four form handlers:

- **`add_author`** ignores a blank name.
- **`add_book`** ignores a submission that lacks an ISBN, a title or an author. It turns a rating outside 1..10 into null.
- **`delete_book`** also deletes the book's author once that author has no book left.
- **`delete_author`** cascades to all of the author's books.

It also covers the two detail lookups, which answer "not found" for an unknown id. Finally, it covers the `home` listing: a case-insensitive search over book title and author name, ordered by title or by (author name, title), with a "no results" flag.

Layout, one module per file:

- `text.dfy` (`Text`): Python's `str.strip()` with the exact set of code points `str.isspace()` accepts. It also holds SQLite's ASCII-only case folding for `LIKE`, substring containment, and the BINARY collation order that `ORDER BY` uses on text. That order is proved transitive and total.
- `sorting.dfy` (`Sorting`): the largest id of a set, ids in ascending (rowid) order, and an insertion sort by a (primary, secondary) text key. The sort is proved to return an ordered permutation of its input.
- `schema.dfy` (`Schema`): the `Author`, `Book` and `Store` records and the store invariant `Valid`. `Valid` requires the required text columns to be non-empty, the ISBN to be unique, and every book's author to exist. The file also holds the `author.books` relationship (`BooksOf`) and SQLite's choice of a new row id (`NextId`).
- `handlers.dfy` (`Handlers`): each handler as a pure transition from the store before a request to the store after it and the handler's outcome. It also holds the lemmas about those transitions: the invariant is preserved, the `author.books` collections change only as described, resubmitting the same book is rejected, and adding a new author and a book and then deleting the book is a round trip.
- `listing.dfy` (`Listing`): the `home` query and the author list shown on the add-book form.
- `library.dfy` (`App.Library`): the database as an object whose two table fields the handlers update in place. Each method follows its handler step by step. Each method is proved to keep `Valid` and to produce exactly the store and outcome of its transition in `Handlers`.

Form input is taken as already parsed:

- Text fields are raw strings; the model strips them itself.
- Numbers are `Option<int>`: `None` when the field was blank.
- Dates are `Option<Date>`.

A missing id for a delete or a detail view is an outcome that leaves the store unchanged. An insert that would duplicate an ISBN also leaves the store unchanged: SQLite's UNIQUE constraint fails the commit.

In two places the code does something easy to misread; the model follows the code:

- The author reference on `add_book` is checked by Python truthiness, so an id of `0` is ignored like a missing one, and a negative id passes.
- A duplicate ISBN is not rejected by the handler. The database refuses the commit, which the model records as its own outcome.

## Model

| member | source | states |
|---|---|---|
| Text.Strip | app.py:119-123 | a stripped form field is the slice of the input left after its leading and trailing whitespace; it is empty exactly when the field is all whitespace, and otherwise starts and ends with a non-space character |
| Text.ContainsIsILike | app.py:53-54 | a query that occurs literally in a value also matches it under the case-insensitive `ilike` |
| Text.ILikeContains | app.py:53-54 | `value ILIKE '%q%'`: the query occurs in the value once both are folded to lower case (ASCII letters only) |
| Text.ILikeContainsAt | app.py:53-54 | the case-insensitive match holds exactly when some window of the value equals the query character by character up to ASCII case |
| Text.Less | app.py:62-64 | the BINARY collation of ORDER BY: code-point order, a proper prefix first |
| Text.LessTransitive | app.py:62-64 | the collation order is transitive |
| Text.LessTotal | app.py:62-64 | any two distinct strings are ordered one way or the other |
| Text.StripLower | app.py:44 | stripping the query commutes with ASCII case folding |
| Sorting.SortByKey | app.py:62-64 | the ordering step returns a permutation of its rows in which every row's key is at most the next one's |
| Schema.NextId | data_models.py:9 | a new row id is not yet in the table and is larger than every id in it, and it is 1 in an empty table |
| Schema.Valid | data_models.py:10-30 | the store invariant: author names, ISBNs and titles are present, ISBNs are unique, and every book's `author_id` names a stored author |
| Schema.BooksOf | data_models.py:13 | `author.books`: the ids of exactly the books whose `author_id` is that author |
| Handlers.StoredRating | app.py:126-130 | a rating is stored only when it lies in 1..10 and is then unchanged; an omitted or out-of-range rating is stored as null |
| Handlers.AuthorIdGiven | app.py:132 | the truthiness test on the parsed author id: a missing id and 0 fail, every other id passes |
| Handlers.AddAuthor | app.py:84-107 | a blank name changes nothing; otherwise exactly one new author is stored, with a fresh id, the stripped name and the given dates, and the books are untouched |
| Handlers.AddBook | app.py:118-141 | the submission is ignored exactly when the stripped ISBN or title is blank or the author id is missing or 0. It is a duplicate exactly when it is not ignored and the ISBN is already stored. In both cases the store is unchanged. Otherwise exactly one book is added under a fresh id, with the stripped fields and the coerced rating, and the authors are untouched |
| Handlers.DeleteBook | app.py:151-165 | an unknown id is not found and changes nothing. Otherwise the book is removed, and its author is removed exactly when the author exists and the deleted book was its only one. Nothing else changes |
| Handlers.DeleteAuthor | app.py:168-173 | an unknown id is not found and changes nothing. Otherwise the author is removed, the books removed are exactly that author's collection, and every remaining book is unchanged |
| Handlers.BookDetail | app.py:176-179 | the lookup fails exactly for an unknown book id and otherwise returns the stored book |
| Handlers.AuthorDetail | app.py:182-185 | the lookup fails exactly for an unknown author id and otherwise returns the stored author |
| Handlers.AddAuthorKeepsValid | data_models.py:10 | adding an author keeps the store invariant: names non-empty, ISBN unique, owners exist |
| Handlers.AddBookKeepsValid | data_models.py:26-30 | adding a book whose chosen author exists keeps the store invariant, including ISBN uniqueness |
| Handlers.DeleteBookKeepsValid | app.py:159-163 | the orphan-author cleanup never removes an author that still owns a book, so every book still has its author |
| Handlers.DeleteAuthorKeepsValid | data_models.py:13 | thanks to the cascade, deleting an author leaves no book pointing at it |
| Handlers.AddBookJoinsCollection | data_models.py:30-31 | a new book joins its author's `books` collection and no other collection changes |
| Handlers.DeleteBookLeavesCollection | app.py:156-157 | deleting a book takes it out of its author's collection and leaves every other collection as it was |
| Handlers.DeleteAuthorCascades | data_models.py:13 | after an author is deleted its collection is empty and the other authors' collections are unchanged |
| Handlers.BookHasOneOwner | data_models.py:13-31 | in a valid store the `books` collections of the stored authors partition the books: every book is in the collection of some stored author, and no two collections share a book |
| Handlers.ResubmittedBookIsDuplicate | data_models.py:26 | submitting the same accepted book again is rejected as a duplicate ISBN and stores nothing |
| Handlers.NewAuthorHasNoBooks | app.py:100-107 | a freshly added author owns no book and gets a positive id when all existing ids are positive |
| Handlers.DeleteOnlyBookRemovesAuthor | app.py:159-163 | deleting the only book of an author that was added together with it removes both and restores the earlier store |
| Handlers.NewAuthorBookDeleteRoundTrip | app.py:151-165 | add an author, then a book for it (its rating coerced), then delete the book: the author goes too and the store is back where it started |
| Listing.Ordered | app.py:59-64 | the rows come out each once and in order: by (author name, title) for the author sort, by title otherwise |
| Listing.Hits | app.py:50-61 | the rows the join and the filter keep are stored books; which ones exactly is stated by `Listing.Home` |
| Listing.Home | app.py:42-69 | with a non-blank stripped query, exactly the books with an existing author whose title or author name contains the query ignoring ASCII case. With a blank query, every book, or every book with an existing author when sorting by author. Each book is listed once. Rows are ordered by (author name, title) when `sort` is "author" and by title otherwise. The no-results flag is set exactly when the query is non-blank and nothing is listed |
| Listing.BlankQueryListsEverything | app.py:47-64 | in a valid store a blank query lists exactly all books, whatever the sort |
| Listing.TitleHitIsListed | app.py:53 | a book whose title contains the query is listed, and the no-results flag is off |
| Listing.SearchIgnoresCase | app.py:53-54 | typing the query in lower case gives the same listing and the same flag |
| Listing.HitsIgnoreCase | app.py:53-54 | the rows kept for a query and for its lower-case form are the same |
| Listing.SameHitsSameHome | app.py:44-69 | the page depends on the query only through the rows kept and whether the stripped query is blank |
| Listing.AuthorChoices | app.py:116 | the add-book form lists every author exactly once, ordered by name |
| App.Library.AddAuthor | app.py:81-110 | the in-place handler keeps the invariant and leaves the tables and outcome that `Handlers.AddAuthor` describes |
| App.Library.AddBook | app.py:113-148 | the in-place handler, given an author choice from the form, keeps the invariant and leaves the tables and outcome that `Handlers.AddBook` describes |
| App.Library.DeleteBook | app.py:151-165 | the in-place handler, which counts the author's remaining books after the delete, keeps the invariant and matches `Handlers.DeleteBook` |
| App.Library.DeleteAuthor | app.py:168-173 | the in-place cascade keeps the invariant and matches `Handlers.DeleteAuthor` |

## Left out

- The web layer is not modelled: routing, `render_template`, `redirect`/`url_for`, reading the request, the German status messages, the `message` parameter passed back to `home`, and `app.run`. These are presentation plumbing.
- The startup migration `ensure_rating_column` is not modelled: it checks the database file and adds the rating column with `PRAGMA` and `ALTER TABLE`.
- The session and commit semantics are not modelled. Each handler is one atomic step. In particular, `delete_book` commits twice, and a crash between the two commits would leave an empty author behind; that state is not represented.
- Date parsing (`datetime.strptime`) and integer parsing (`int()`) are left out. Their exceptions on malformed input, which produce a server error, are left out too. The model takes the values already parsed.
- `%` and `_` inside the search query act as `LIKE` wildcards in the source. The model treats the query as plain text. SQLite collation is taken as code-point order, which is what its default BINARY collation gives for well-formed text.
- The order of rows with equal sort keys is not specified.
- Foreign keys are not enforced by SQLite by default, so the source would store a book whose `author_id` names no author. `Handlers.AddBook` does store such a book, faithfully. The invariant lemma and the in-place method assume instead that the submitted id names an existing author, as the form's selection list offers.
- App.Library.AddBook: requires that an author id passing the truthiness check names an existing author. This is narrower than the source, which would also accept a dangling id (see the previous line).
- The declared text lengths `String(20)` and `String(255)` are not modelled: SQLite does not enforce them.
- The bounds of SQLite's 64-bit integers are not modelled, so years, ratings and ids are unbounded. When the largest rowid is already at the maximum, SQLite picks a random unused id; that case is not modelled either.
- `nullable=False` on the text columns is modelled as "non-empty". Strings here cannot be null, and the only creation paths strip the input and refuse an empty result.
- `__repr__` and `__str__` of the two records are display helpers and are not modelled.
