/**
 * Ascending sort on a two-part key compared lexicographically, as
 * pandas `sort_values(by=[k1, k2], ascending=True)` orders rows.
 * Insertion sort is used only as a definition: what is promised is
 * that the result is ordered and a permutation of the input.
 */
module Sorting {

  /** Lexicographic order on (primary, secondary). */
  predicate KeyLe(a: (int, int), b: (int, int)) {
    a.0 < b.0 || (a.0 == b.0 && a.1 <= b.1)
  }

  /** `s` is non-decreasing under `key`. */
  predicate SortedBy<T>(s: seq<T>, key: T -> (int, int)) {
    forall i, j | 0 <= i < j < |s| :: KeyLe(key(s[i]), key(s[j]))
  }

  function Insert<T(==)>(x: T, s: seq<T>, key: T -> (int, int)): (r: seq<T>)
    requires SortedBy(s, key)
    ensures SortedBy(r, key)
    ensures multiset(r) == multiset(s) + multiset{x}
  {
    if s == [] then [x]
    else if KeyLe(key(x), key(s[0])) then [x] + s
    else
      var t := Insert(x, s[1..], key);
      assert s == [s[0]] + s[1..];
      HeadIsLeast(s, key);
      assert forall j | 0 <= j < |t| :: t[j] in multiset(t);
      [s[0]] + t
  }

  /** The head of a sorted sequence is at most every later element. */
  lemma HeadIsLeast<T>(s: seq<T>, key: T -> (int, int))
    requires SortedBy(s, key) && s != []
    ensures forall y | y in multiset(s[1..]) :: KeyLe(key(s[0]), key(y))
  {
    forall y | y in multiset(s[1..]) ensures KeyLe(key(s[0]), key(y)) {
      var k :| 0 <= k < |s[1..]| && s[1..][k] == y;
      assert s[k + 1] == y;
    }
  }

  /** The rows of `s` in ascending key order. */
  function SortBy<T(==)>(s: seq<T>, key: T -> (int, int)): (r: seq<T>)
    ensures SortedBy(r, key)
    ensures multiset(r) == multiset(s)
  {
    if s == [] then []
    else
      assert s == [s[0]] + s[1..];
      Insert(s[0], SortBy(s[1..], key), key)
  }

  /** Sorting an already sorted sequence changes nothing. */
  lemma {:induction false} SortBySortedIsIdentity<T>(s: seq<T>, key: T -> (int, int))
    requires SortedBy(s, key)
    ensures SortBy(s, key) == s
  {
    if s != [] {
      assert SortedBy(s[1..], key);
      SortBySortedIsIdentity(s[1..], key);
      if |s| > 1 {
        assert KeyLe(key(s[0]), key(s[1]));
      }
    }
  }

  /** Sorting is idempotent. */
  lemma SortByIdempotent<T>(s: seq<T>, key: T -> (int, int))
    ensures SortBy(SortBy(s, key), key) == SortBy(s, key)
  {
    SortBySortedIsIdentity(SortBy(s, key), key);
  }
}
