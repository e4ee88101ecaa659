/**
 * The read-only queries of the catalogue: the `home` list with its search
 * filter, its two orderings and its "no results" flag, and the author list
 * the add-book form offers.
 */
module Listing {
  import opened Text
  import opened Schema
  import opened Sorting

  /** The ORDER BY the `sort` parameter selects: "author" means (author name, title), anything else title. */
  datatype Order = ByTitle | ByAuthor

  function OrderFor(sort: string): Order {
    if sort == "author" then ByAuthor else ByTitle
  }

  /** The name of a book's author as the join sees it (only asked for books the join keeps). */
  function AuthorName(s: Store, b: Book): string {
    if b.authorId in s.authors then s.authors[b.authorId].name else []
  }

  /** `title ILIKE '%q%' OR author.name ILIKE '%q%'`. */
  predicate Matches(s: Store, b: Book, q: string) {
    ILikeContains(b.title, q) || ILikeContains(AuthorName(s, b), q)
  }

  function RowKey(s: Store, order: Order, b: Book): SortKey {
    match order
    case ByAuthor => (AuthorName(s, b), b.title)
    case ByTitle => (b.title, [])
  }

  /** The rows `home` keeps: the inner join applies when searching or sorting by author. */
  function Hits(s: Store, query: string, order: Order): (hits: set<int>)
    ensures hits <= s.books.Keys
  {
    var joined := query != [] || order == ByAuthor;
    set id | id in s.books
             && (!joined || s.books[id].authorId in s.authors)
             && (query == [] || Matches(s, s.books[id], query))
  }

  /** The rows of `hits` in the requested order, each once. */
  function Ordered(s: Store, hits: set<int>, order: Order): (rows: seq<int>)
    requires hits <= s.books.Keys
    ensures multiset(rows) == multiset(hits)
    ensures forall i :: 0 <= i < |rows| ==> rows[i] in hits
    ensures order == ByAuthor ==>
      forall i, j :: 0 <= i < j < |rows| ==>
        var x, y := s.books[rows[i]], s.books[rows[j]];
        Less(AuthorName(s, x), AuthorName(s, y))
        || (AuthorName(s, x) == AuthorName(s, y) && LessOrEqual(x.title, y.title))
    ensures order == ByTitle ==>
      forall i, j :: 0 <= i < j < |rows| ==> LessOrEqual(s.books[rows[i]].title, s.books[rows[j]].title)
  {
    var keys := map id | id in hits :: RowKey(s, order, s.books[id]);
    var unordered := Ascending(hits);
    assert Keyed(unordered, keys) by {
      forall i | 0 <= i < |unordered| ensures unordered[i] in keys {
        assert unordered[i] in multiset(unordered);
      }
    }
    var rows := SortByKey(unordered, keys);
    assert forall i :: 0 <= i < |rows| ==> rows[i] in hits by {
      forall i | 0 <= i < |rows| ensures rows[i] in hits {
        assert rows[i] in multiset(rows);
      }
    }
    RowsInOrder(s, order, keys, rows);
    rows
  }

  /** Rows sorted by their `RowKey` come out in the order ORDER BY asks for. */
  lemma RowsInOrder(s: Store, order: Order, keys: map<int, SortKey>, rows: seq<int>)
    requires forall id :: id in keys ==> id in s.books
    requires forall id :: id in keys ==> keys[id] == RowKey(s, order, s.books[id])
    requires Keyed(rows, keys) && SortedBy(rows, keys)
    requires forall i :: 0 <= i < |rows| ==> rows[i] in s.books
    ensures order == ByAuthor ==>
      forall i, j :: 0 <= i < j < |rows| ==>
        var x, y := s.books[rows[i]], s.books[rows[j]];
        Less(AuthorName(s, x), AuthorName(s, y))
        || (AuthorName(s, x) == AuthorName(s, y) && LessOrEqual(x.title, y.title))
    ensures order == ByTitle ==>
      forall i, j :: 0 <= i < j < |rows| ==> LessOrEqual(s.books[rows[i]].title, s.books[rows[j]].title)
  {
    forall i, j | 0 <= i < j < |rows|
      ensures KeyLe(RowKey(s, order, s.books[rows[i]]), RowKey(s, order, s.books[rows[j]]))
    {
      var a, b := rows[i], rows[j];
      assert a in keys && b in keys;
      assert KeyLe(keys[a], keys[b]);
    }
  }

  /** What `home` hands to its page: the listed book ids in order, and whether "no books found" is shown. */
  datatype HomeView = HomeView(books: seq<int>, noResults: bool)

  /**
   * `home`: with a non-blank query, the books joined to their author whose
   * title or author name contains the query ignoring ASCII case; otherwise
   * every book (inner-joined to its author when sorting by author); ordered
   * by the requested key; "no results" only for a non-blank query that
   * found nothing.
   */
  function Home(s: Store, q: string, sort: string): (r: HomeView)
    ensures forall i :: 0 <= i < |r.books| ==> r.books[i] in s.books
    ensures forall id :: multiset(r.books)[id] <= 1
    ensures Strip(q) != [] ==>
      forall id :: id in s.books ==>
        (id in r.books <==> s.books[id].authorId in s.authors && Matches(s, s.books[id], Strip(q)))
    ensures Strip(q) == [] && sort != "author" ==>
      forall id :: id in s.books ==> id in r.books
    ensures Strip(q) == [] && sort == "author" ==>
      forall id :: id in s.books ==> (id in r.books <==> s.books[id].authorId in s.authors)
    ensures sort == "author" ==>
      forall i, j :: 0 <= i < j < |r.books| ==>
        var x, y := s.books[r.books[i]], s.books[r.books[j]];
        Less(AuthorName(s, x), AuthorName(s, y))
        || (AuthorName(s, x) == AuthorName(s, y) && LessOrEqual(x.title, y.title))
    ensures sort != "author" ==>
      forall i, j :: 0 <= i < j < |r.books| ==> LessOrEqual(s.books[r.books[i]].title, s.books[r.books[j]].title)
    ensures r.noResults <==> Strip(q) != [] && r.books == []
  {
    var query := Strip(q);
    var order := OrderFor(sort);
    var hits := Hits(s, query, order);
    var rows := Ordered(s, hits, order);
    assert forall id :: id in rows <==> id in hits by {
      forall id ensures id in rows <==> id in hits {
        assert id in rows <==> id in multiset(rows);
      }
    }
    HomeView(rows, query != [] && rows == [])
  }

  /** In a valid store the join drops nothing: a blank query lists every book, whatever the sort. */
  lemma BlankQueryListsEverything(s: Store, q: string, sort: string)
    requires Valid(s) && Strip(q) == []
    ensures forall id :: id in Home(s, q, sort).books <==> id in s.books
  {
  }

  /** A non-blank query lists a book whose title holds it literally. */
  lemma TitleHitIsListed(s: Store, q: string, sort: string, id: int)
    requires Valid(s) && Strip(q) != [] && id in s.books
    requires Contains(s.books[id].title, Strip(q))
    ensures id in Home(s, q, sort).books && !Home(s, q, sort).noResults
  {
    ContainsIsILike(s.books[id].title, Strip(q));
  }

  /** Searching is case-insensitive: the query typed in lower case gives the same page. */
  lemma SearchIgnoresCase(s: Store, q: string, sort: string)
    ensures Home(s, Lower(q), sort) == Home(s, q, sort)
  {
    StripLower(q);
    HitsIgnoreCase(s, Strip(q), OrderFor(sort));
    SameHitsSameHome(s, Lower(q), q, sort);
  }

  /** The rows kept for a query and for its lower-case form are the same. */
  lemma HitsIgnoreCase(s: Store, query: string, order: Order)
    ensures Hits(s, Lower(query), order) == Hits(s, query, order)
  {
    forall b: Book ensures Matches(s, b, Lower(query)) == Matches(s, b, query) {
      ILikeIgnoresPatternCase(b.title, query);
      ILikeIgnoresPatternCase(AuthorName(s, b), query);
    }
  }

  /** `home` depends on the query only through the rows it keeps and whether it is blank. */
  lemma SameHitsSameHome(s: Store, q1: string, q2: string, sort: string)
    requires (Strip(q1) == []) == (Strip(q2) == [])
    requires Hits(s, Strip(q1), OrderFor(sort)) == Hits(s, Strip(q2), OrderFor(sort))
    ensures Home(s, q1, sort) == Home(s, q2, sort)
  {
  }

  /**
   * The author list of the add-book form (`Author.query.order_by(Author.name)`):
   * every author once, ordered by name.
   */
  function AuthorChoices(s: Store): (r: seq<int>)
    ensures multiset(r) == multiset(s.authors.Keys)
    ensures forall i :: 0 <= i < |r| ==> r[i] in s.authors
    ensures forall i, j :: 0 <= i < j < |r| ==> LessOrEqual(s.authors[r[i]].name, s.authors[r[j]].name)
  {
    var keys := map a | a in s.authors :: (s.authors[a].name, []);
    var unordered := Ascending(s.authors.Keys);
    assert Keyed(unordered, keys) by {
      forall i | 0 <= i < |unordered| ensures unordered[i] in keys {
        assert unordered[i] in multiset(unordered);
      }
    }
    var r := SortByKey(unordered, keys);
    assert forall i :: 0 <= i < |r| ==> r[i] in s.authors by {
      forall i | 0 <= i < |r| ensures r[i] in s.authors {
        assert r[i] in multiset(r);
      }
    }
    r
  }
}
