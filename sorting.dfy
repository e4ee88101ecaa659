/**
 * Row order for the catalogue's listings. SQLite hands rows back in rowid
 * order when nothing else is asked for; ORDER BY on one or two text columns
 * then reorders them by BINARY collation. Ties between equal keys are left in
 * whatever order the sort produces: nothing is promised about them.
 */
module Sorting {
  import opened Text

  /** The largest of a non-empty set of row ids. */
  function Largest(s: set<int>): (m: int)
    requires s != {}
    ensures m in s && forall k :: k in s ==> k <= m
  {
    LargestExists(s);
    var m :| m in s && forall k :: k in s ==> k <= m;
    m
  }

  /** A set that is not empty has a member to pick. */
  lemma NonEmptyHasMember(s: set<int>)
    requires s != {}
    ensures exists x :: x in s
  {
    if forall x :: x !in s {
      assert false;
    }
  }

  lemma {:induction false} LargestExists(s: set<int>)
    requires s != {}
    ensures exists m :: m in s && forall k :: k in s ==> k <= m
    decreases |s|
  {
    NonEmptyHasMember(s);
    var x :| x in s;
    if exists y :: y in s && y > x {
      var y :| y in s && y > x;
      var rest := s - {x};
      assert y in rest;
      LargestExists(rest);
      var m :| m in rest && forall k :: k in rest ==> k <= m;
      forall k | k in s ensures k <= m {
        if k != x {
          assert k in rest;
        }
      }
      assert m in s;
    } else {
      assert forall k :: k in s ==> k <= x;
    }
  }

  /** The ids of `s` in ascending (rowid) order, each once. */
  function Ascending(s: set<int>): (r: seq<int>)
    ensures multiset(r) == multiset(s)
    ensures forall i, j :: 0 <= i < j < |r| ==> r[i] < r[j]
    decreases |s|
  {
    if s == {} then []
    else
      var m := Largest(s);
      var rest := Ascending(s - {m});
      assert multiset(s - {m}) + multiset{m} == multiset(s) by {
        assert s == (s - {m}) + {m};
      }
      forall i | 0 <= i < |rest| ensures rest[i] < m {
        assert rest[i] in multiset(rest);
      }
      assert multiset(rest + [m]) == multiset(rest) + multiset{m};
      rest + [m]
  }

  /** An ORDER BY key: a primary text column, then a secondary one. */
  type SortKey = (string, string)

  predicate KeyLe(x: SortKey, y: SortKey) {
    Less(x.0, y.0) || (x.0 == y.0 && LessOrEqual(x.1, y.1))
  }

  lemma KeyLeTotal(x: SortKey, y: SortKey)
    ensures KeyLe(x, y) || KeyLe(y, x)
  {
    LessTotal(x.0, y.0);
    LessTotal(x.1, y.1);
  }

  lemma KeyLeTransitive(x: SortKey, y: SortKey, z: SortKey)
    requires KeyLe(x, y) && KeyLe(y, z)
    ensures KeyLe(x, z)
  {
    if Less(x.0, y.0) && Less(y.0, z.0) {
      LessTransitive(x.0, y.0, z.0);
    } else if x.1 != y.1 && y.1 != z.1 && x.0 == y.0 && y.0 == z.0 {
      LessTransitive(x.1, y.1, z.1);
    }
  }

  predicate Keyed(ids: seq<int>, keys: map<int, SortKey>) {
    forall i :: 0 <= i < |ids| ==> ids[i] in keys
  }

  predicate SortedBy(ids: seq<int>, keys: map<int, SortKey>)
    requires Keyed(ids, keys)
  {
    forall i, j :: 0 <= i < j < |ids| ==> KeyLe(keys[ids[i]], keys[ids[j]])
  }

  /** Places `x` into an already ordered sequence of ids. */
  function Insert(x: int, ids: seq<int>, keys: map<int, SortKey>): (r: seq<int>)
    requires x in keys && Keyed(ids, keys) && SortedBy(ids, keys)
    ensures multiset(r) == multiset(ids) + multiset{x}
    ensures Keyed(r, keys) && SortedBy(r, keys)
  {
    if ids == [] then [x]
    else if KeyLe(keys[x], keys[ids[0]]) then
      assert forall j :: 0 < j < |ids| ==> KeyLe(keys[x], keys[ids[j]]) by {
        forall j | 0 < j < |ids| ensures KeyLe(keys[x], keys[ids[j]]) {
          KeyLeTransitive(keys[x], keys[ids[0]], keys[ids[j]]);
        }
      }
      [x] + ids
    else
      KeyLeTotal(keys[x], keys[ids[0]]);
      var rest := Insert(x, ids[1..], keys);
      assert ids == [ids[0]] + ids[1..];
      assert forall j :: 0 <= j < |rest| ==> KeyLe(keys[ids[0]], keys[rest[j]]) by {
        forall j | 0 <= j < |rest| ensures KeyLe(keys[ids[0]], keys[rest[j]]) {
          assert rest[j] in multiset(rest);
          if rest[j] != x {
            assert rest[j] in multiset(ids[1..]);
            var k :| 0 <= k < |ids[1..]| && ids[1..][k] == rest[j];
            assert ids[k + 1] == rest[j];
          }
        }
      }
      [ids[0]] + rest
  }

  /** Insertion sort: a reordering of `ids` that is ordered by `keys`. */
  function SortByKey(ids: seq<int>, keys: map<int, SortKey>): (r: seq<int>)
    requires Keyed(ids, keys)
    ensures multiset(r) == multiset(ids)
    ensures Keyed(r, keys) && SortedBy(r, keys)
  {
    if ids == [] then []
    else
      assert ids == [ids[0]] + ids[1..];
      Insert(ids[0], SortByKey(ids[1..], keys), keys)
  }
}
