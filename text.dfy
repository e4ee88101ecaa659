/**
 * The string operations the catalogue relies on: Python's `str.strip()`,
 * the case-insensitive containment that `ilike '%q%'` performs in SQLite
 * (ASCII letters only), and SQLite's BINARY collation used by ORDER BY.
 */
module Text {

  /** The code points Python's `str.isspace()` accepts, i.e. what `strip()` removes. */
  predicate IsSpace(c: char) {
    var n := c as int;
    n == 0x20 || 0x09 <= n <= 0x0D || 0x1C <= n <= 0x1F || n == 0x85 || n == 0xA0
    || n == 0x1680 || 0x2000 <= n <= 0x200A || n == 0x2028 || n == 0x2029
    || n == 0x202F || n == 0x205F || n == 0x3000
  }

  /** `s.lstrip()`: the suffix left after the leading whitespace. */
  function StripStart(s: string): (r: string)
    ensures |r| <= |s| && r == s[|s| - |r|..]
    ensures forall k :: 0 <= k < |s| - |r| ==> IsSpace(s[k])
    ensures r != [] ==> !IsSpace(r[0])
  {
    if s != [] && IsSpace(s[0]) then StripStart(s[1..]) else s
  }

  /** `s.rstrip()`: the prefix left before the trailing whitespace. */
  function StripEnd(s: string): (r: string)
    ensures |r| <= |s| && r == s[..|r|]
    ensures forall k :: |r| <= k < |s| ==> IsSpace(s[k])
    ensures r != [] ==> !IsSpace(r[|r| - 1])
  {
    if s != [] && IsSpace(s[|s| - 1]) then StripEnd(s[..|s| - 1]) else s
  }

  /**
   * `s.strip()`: the slice of `s` left once its leading and trailing
   * whitespace is removed; a form field is blank exactly when it is all
   * whitespace.
   */
  function Strip(s: string): (r: string)
    ensures exists i, j ::
              && 0 <= i <= j <= |s| && r == s[i..j]
              && (forall k :: 0 <= k < i ==> IsSpace(s[k]))
              && (forall k :: j <= k < |s| ==> IsSpace(s[k]))
    ensures r != [] ==> !IsSpace(r[0]) && !IsSpace(r[|r| - 1])
    ensures r == [] <==> forall k :: 0 <= k < |s| ==> IsSpace(s[k])
  {
    var t := StripStart(s);
    var r := StripEnd(t);
    Trimmed(s, t, r);
    r
  }

  /**
   * What `Strip` returns, from the contracts of its two halves: a prefix `r`
   * of a suffix `t` of `s`, with only whitespace cut on either side and a
   * non-space character at each cut edge.
   */
  lemma Trimmed(s: string, t: string, r: string)
    requires |t| <= |s| && t == s[|s| - |t|..] && forall k :: 0 <= k < |s| - |t| ==> IsSpace(s[k])
    requires t != [] ==> !IsSpace(t[0])
    requires |r| <= |t| && r == t[..|r|] && forall k :: |r| <= k < |t| ==> IsSpace(t[k])
    requires r != [] ==> !IsSpace(r[|r| - 1])
    ensures exists i, j ::
              && 0 <= i <= j <= |s| && r == s[i..j]
              && (forall k :: 0 <= k < i ==> IsSpace(s[k]))
              && (forall k :: j <= k < |s| ==> IsSpace(s[k]))
    ensures r != [] ==> !IsSpace(r[0]) && !IsSpace(r[|r| - 1])
    ensures r == [] <==> forall k :: 0 <= k < |s| ==> IsSpace(s[k])
  {
    var i, j := |s| - |t|, |s| - |t| + |r|;
    assert r == s[i..j];
    forall k | j <= k < |s| ensures IsSpace(s[k]) {
      assert s[k] == t[k - i];
    }
    if t != [] {
      assert !forall k :: 0 <= k < |t| ==> IsSpace(t[k]);
      assert r[0] == t[0] == s[i];
    }
  }

  /** SQLite's case folding for LIKE: ASCII upper-case letters only. */
  function LowerChar(c: char): char {
    if 'A' <= c <= 'Z' then (c as int + 32) as char else c
  }

  function Lower(s: string): (r: string)
    ensures |r| == |s| && forall i :: 0 <= i < |s| ==> r[i] == LowerChar(s[i])
  {
    seq(|s|, i requires 0 <= i < |s| => LowerChar(s[i]))
  }

  /** Folding case neither creates nor removes whitespace, so it commutes with `strip()`. */
  lemma {:induction false} StripLower(s: string)
    ensures Strip(Lower(s)) == Lower(Strip(s))
  {
    StripStartLower(s);
    StripEndLower(StripStart(s));
  }

  lemma {:induction false} StripStartLower(s: string)
    ensures StripStart(Lower(s)) == Lower(StripStart(s))
  {
    if s != [] {
      LowerCharKeepsSpace(s[0]);
      assert Lower(s)[1..] == Lower(s[1..]);
      if IsSpace(s[0]) {
        StripStartLower(s[1..]);
      }
    }
  }

  lemma {:induction false} StripEndLower(s: string)
    ensures StripEnd(Lower(s)) == Lower(StripEnd(s))
  {
    if s != [] {
      LowerCharKeepsSpace(s[|s| - 1]);
      assert Lower(s)[..|s| - 1] == Lower(s[..|s| - 1]);
      if IsSpace(s[|s| - 1]) {
        StripEndLower(s[..|s| - 1]);
      }
    }
  }

  /** Folding a letter never turns it into whitespace or back. */
  lemma LowerCharKeepsSpace(c: char)
    ensures IsSpace(LowerChar(c)) == IsSpace(c)
  {
  }

  predicate OccursAt(hay: string, needle: string, i: int) {
    0 <= i <= |hay| - |needle| && hay[i..i + |needle|] == needle
  }

  /** `needle` is a contiguous piece of `hay`. */
  predicate Contains(hay: string, needle: string) {
    exists i | 0 <= i <= |hay| - |needle| :: OccursAt(hay, needle, i)
  }

  /** `value ILIKE '%pattern%'` with no wildcard inside `pattern`. */
  predicate ILikeContains(value: string, pattern: string) {
    Contains(Lower(value), Lower(pattern))
  }

  /** Each character of `pattern` folds to the same as the character of `value` at offset `i` after it. */
  predicate FoldedAt(value: string, pattern: string, i: int) {
    0 <= i <= |value| - |pattern|
    && forall k | 0 <= k < |pattern| :: LowerChar(value[i + k]) == LowerChar(pattern[k])
  }

  /** `ILikeContains` read character by character: some window of `value` matches `pattern` up to ASCII case. */
  lemma ILikeContainsAt(value: string, pattern: string)
    ensures ILikeContains(value, pattern) <==> exists i :: FoldedAt(value, pattern, i)
  {
    forall i ensures OccursAt(Lower(value), Lower(pattern), i) <==> FoldedAt(value, pattern, i) {
      OccursAtFolded(value, pattern, i);
    }
  }

  lemma OccursAtFolded(value: string, pattern: string, i: int)
    ensures OccursAt(Lower(value), Lower(pattern), i) <==> FoldedAt(value, pattern, i)
  {
    if 0 <= i <= |value| - |pattern| {
      if OccursAt(Lower(value), Lower(pattern), i) {
        forall k | 0 <= k < |pattern| ensures LowerChar(value[i + k]) == LowerChar(pattern[k]) {
          assert Lower(value)[i..i + |pattern|][k] == Lower(pattern)[k];
        }
      }
      if FoldedAt(value, pattern, i) {
        assert Lower(value)[i..i + |pattern|] == Lower(pattern);
      }
    }
  }

  /** The pattern's own case does not matter to `ILIKE`. */
  lemma ILikeIgnoresPatternCase(value: string, pattern: string)
    ensures ILikeContains(value, Lower(pattern)) == ILikeContains(value, pattern)
  {
    assert Lower(Lower(pattern)) == Lower(pattern);
  }

  /** A literal occurrence is also a case-insensitive one. */
  lemma ContainsIsILike(value: string, pattern: string)
    requires Contains(value, pattern)
    ensures ILikeContains(value, pattern)
  {
    var i :| 0 <= i <= |value| - |pattern| && OccursAt(value, pattern, i);
    assert value[i..i + |pattern|] == pattern;
    assert Lower(value)[i..i + |pattern|] == Lower(pattern) by {
      forall k | 0 <= k < |pattern|
        ensures Lower(value)[i..i + |pattern|][k] == Lower(pattern)[k]
      {
        assert value[i + k] == pattern[k];
      }
    }
    assert OccursAt(Lower(value), Lower(pattern), i);
  }

  /** SQLite BINARY collation: code point order, a proper prefix first. */
  predicate Less(a: string, b: string) {
    b != [] && (a == [] || a[0] < b[0] || (a[0] == b[0] && Less(a[1..], b[1..])))
  }

  predicate LessOrEqual(a: string, b: string) {
    a == b || Less(a, b)
  }

  lemma {:induction false} LessTransitive(a: string, b: string, c: string)
    requires Less(a, b) && Less(b, c)
    ensures Less(a, c)
  {
    if a != [] && a[0] == b[0] && b[0] == c[0] {
      LessTransitive(a[1..], b[1..], c[1..]);
    }
  }

  lemma {:induction false} LessTotal(a: string, b: string)
    ensures a == b || Less(a, b) || Less(b, a)
  {
    if a != [] && b != [] && a[0] == b[0] {
      LessTotal(a[1..], b[1..]);
      if a[1..] == b[1..] {
        assert a == [a[0]] + a[1..] && b == [b[0]] + b[1..];
      }
    }
  }

}
