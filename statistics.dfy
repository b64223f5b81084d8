/** Sum, extremes, mean and median of a non-empty list of integer values. */
module Statistics {
  import Sorting

  function Sum(s: seq<int>): int {
    if s == [] then 0 else Sum(s[..|s| - 1]) + s[|s| - 1]
  }

  function SumReal(s: seq<real>): real {
    if s == [] then 0.0 else SumReal(s[..|s| - 1]) + s[|s| - 1]
  }

  /** The arithmetic mean of a non-empty sequence of reals. */
  function MeanReal(s: seq<real>): real
    requires |s| > 0
  {
    SumReal(s) / |s| as real
  }

  lemma SumAppend(s: seq<int>, v: int)
    ensures Sum(s + [v]) == Sum(s) + v
  {
    assert (s + [v])[..|s|] == s;
  }

  function Min(s: seq<int>): (m: int)
    requires |s| > 0
    ensures m in s && forall x | x in s :: m <= x
  {
    if |s| == 1 then s[0]
    else
      assert s == [s[0]] + s[1..];
      var m := Min(s[1..]);
      if s[0] <= m then s[0] else m
  }

  function Max(s: seq<int>): (m: int)
    requires |s| > 0
    ensures m in s && forall x | x in s :: x <= m
  {
    if |s| == 1 then s[0]
    else
      assert s == [s[0]] + s[1..];
      var m := Max(s[1..]);
      if s[0] >= m then s[0] else m
  }

  /** A sum of values lying in [lo, hi] lies in [|s| * lo, |s| * hi]. */
  lemma {:induction false} SumBetween(s: seq<int>, lo: int, hi: int)
    requires forall x | x in s :: lo <= x <= hi
    ensures |s| * lo <= Sum(s) <= |s| * hi
  {
    if s != [] {
      var s' := s[..|s| - 1];
      assert forall x | x in s' :: x in s;
      assert s[|s| - 1] in s;
      SumBetween(s', lo, hi);
      assert |s| * lo == |s'| * lo + lo;
      assert |s| * hi == |s'| * hi + hi;
    }
  }

  lemma ProductAsReal(a: int, b: int)
    ensures (a * b) as real == a as real * b as real
  {
  }

  lemma QuotientBetween(a: real, n: real, lo: real, hi: real)
    requires n > 0.0 && n * lo <= a <= n * hi
    ensures lo <= a / n <= hi
  {
  }

  /** The arithmetic mean (numpy `mean`), between the extremes. */
  function Mean(s: seq<int>): (m: real)
    requires |s| > 0
    ensures Min(s) as real <= m <= Max(s) as real
  {
    var n := |s| as real;
    SumBetween(s, Min(s), Max(s));
    ProductAsReal(|s|, Min(s));
    ProductAsReal(|s|, Max(s));
    QuotientBetween(Sum(s) as real, n, Min(s) as real, Max(s) as real);
    Sum(s) as real / n
  }

  function PriceKey(p: int): (int, int) {
    (p, 0)
  }

  /**
   * The median (numpy `median`): the middle value of the sorted list for an
   * odd length, the mean of the two middle values for an even length.
   */
  function Median(s: seq<int>): (m: real)
    requires |s| > 0
    ensures Min(s) as real <= m <= Max(s) as real
  {
    var t := Sorting.SortBy(s, PriceKey);
    var n := |t|;
    assert |multiset(t)| == |multiset(s)|;
    assert forall k | 0 <= k < n :: t[k] in multiset(s) && t[k] in s;
    if n % 2 == 1 then t[n / 2] as real
    else (t[n / 2 - 1] + t[n / 2]) as real / 2.0
  }

  /** The middle element(s) the median is taken from are in sorted order. */
  lemma MedianIsMiddle(s: seq<int>)
    requires |s| > 0
    ensures var t := Sorting.SortBy(s, PriceKey);
      && multiset(t) == multiset(s)
      && (forall i, j | 0 <= i <= j < |t| :: t[i] <= t[j])
      && Median(s) == if |t| % 2 == 1 then t[|t| / 2] as real
                      else (t[|t| / 2 - 1] + t[|t| / 2]) as real / 2.0
  {
    var t := Sorting.SortBy(s, PriceKey);
    forall i, j | 0 <= i <= j < |t| ensures t[i] <= t[j] {
      if i < j {
        assert Sorting.KeyLe(PriceKey(t[i]), PriceKey(t[j]));
      }
    }
  }
}
