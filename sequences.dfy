/** Order-preserving selection and element-wise maps over sequences. */
module Sequences {

  /**
   * `a` can be obtained from `b` by deleting elements, keeping the
   * relative order of the rest (matched greedily from the end).
   */
  predicate IsSubsequence<T(==)>(a: seq<T>, b: seq<T>)
    decreases |b|
  {
    if a == [] then true
    else if b == [] then false
    else if a[|a| - 1] == b[|b| - 1] then IsSubsequence(a[..|a| - 1], b[..|b| - 1])
    else IsSubsequence(a, b[..|b| - 1])
  }

  /** Every element of a subsequence occurs in the sequence. */
  lemma {:induction false} SubsequenceMembers<T>(a: seq<T>, b: seq<T>)
    requires IsSubsequence(a, b)
    ensures |a| <= |b|
    ensures forall x | x in a :: x in b
  {
    if a != [] && b != [] {
      var b' := b[..|b| - 1];
      assert b == b' + [b[|b| - 1]];
      if a[|a| - 1] == b[|b| - 1] {
        var a' := a[..|a| - 1];
        assert a == a' + [a[|a| - 1]];
        SubsequenceMembers(a', b');
      } else {
        SubsequenceMembers(a, b');
      }
    }
  }

  /** Dropping the last element of a subsequence leaves a subsequence. */
  lemma {:induction false} SubsequenceDropLast<T>(a: seq<T>, b: seq<T>)
    requires a != [] && IsSubsequence(a, b)
    ensures IsSubsequence(a[..|a| - 1], b)
    decreases |b|
  {
    var a' := a[..|a| - 1];
    if a' != [] {
      var b' := b[..|b| - 1];
      assert a'[..|a'| - 1] == a[..|a| - 2];
      if a[|a| - 1] == b[|b| - 1] {
        if a'[|a'| - 1] == b[|b| - 1] {
          SubsequenceDropLast(a', b');
        }
      } else {
        SubsequenceDropLast(a, b');
        if a'[|a'| - 1] == b[|b| - 1] {
          SubsequenceDropLast(a', b');
        }
      }
    }
  }

  /** A subsequence of `b` is a subsequence of any extension of `b`. */
  lemma SubsequenceExtend<T>(a: seq<T>, b: seq<T>, y: T)
    requires IsSubsequence(a, b)
    ensures IsSubsequence(a, b + [y])
  {
    assert (b + [y])[..|b|] == b;
    if a != [] && a[|a| - 1] == y {
      SubsequenceDropLast(a, b);
    }
  }

  /** A prefix one longer is the prefix plus the next element. */
  lemma TakeOneMore<T>(s: seq<T>, i: nat)
    requires i < |s|
    ensures s[..i + 1] == s[..i] + [s[i]]
  {
  }

  /** Appending the same element to both sides keeps a subsequence. */
  lemma SubsequenceAppendBoth<T>(a: seq<T>, b: seq<T>, y: T)
    requires IsSubsequence(a, b)
    ensures IsSubsequence(a + [y], b + [y])
  {
    assert (a + [y])[..|a|] == a && (b + [y])[..|b|] == b;
  }

  /** The set of values `f` takes on the elements of `s`. */
  function Image<T(==), U>(s: seq<T>, f: T -> U): set<U> {
    set x | x in s :: f(x)
  }

  /** `f` takes a different value on every position of `s`. */
  predicate DistinctBy<T, U(==)>(s: seq<T>, f: T -> U) {
    forall i, j | 0 <= i < j < |s| :: f(s[i]) != f(s[j])
  }

  lemma ImageAppend<T, U>(s: seq<T>, x: T, f: T -> U)
    ensures Image(s + [x], f) == Image(s, f) + {f(x)}
  {
    assert forall y | y in s + [x] :: y in s || y == x;
  }

  /**
   * `f` takes at most `|s|` values on `s`, and exactly `|s|` of them
   * precisely when it separates every two positions.
   */
  lemma {:induction false} ImageCard<T, U>(s: seq<T>, f: T -> U)
    ensures |Image(s, f)| <= |s|
    ensures DistinctBy(s, f) <==> |Image(s, f)| == |s|
  {
    if s != [] {
      var s', x := s[..|s| - 1], s[|s| - 1];
      assert s == s' + [x];
      ImageCard(s', f);
      if f(x) in Image(s', f) {
        ImageOfRepeat(s', x, f);
      } else {
        ImageOfNew(s', x, f);
      }
    }
  }

  /** Appending an element whose value is already taken keeps the image and breaks distinctness. */
  lemma ImageOfRepeat<T, U>(s: seq<T>, x: T, f: T -> U)
    requires f(x) in Image(s, f)
    ensures Image(s + [x], f) == Image(s, f)
    ensures !DistinctBy(s + [x], f)
  {
    ImageAppend(s, x, f);
    var y :| y in s && f(y) == f(x);
    var k :| 0 <= k < |s| && s[k] == y;
    assert (s + [x])[k] == y && (s + [x])[|s|] == x;
  }

  /** Appending an element with a new value grows the image by one and keeps distinctness. */
  lemma ImageOfNew<T, U>(s: seq<T>, x: T, f: T -> U)
    requires f(x) !in Image(s, f)
    ensures |Image(s + [x], f)| == |Image(s, f)| + 1
    ensures DistinctBy(s + [x], f) <==> DistinctBy(s, f)
  {
    ImageAppend(s, x, f);
    var t := s + [x];
    forall i, j | 0 <= i < j < |t| && DistinctBy(s, f) ensures f(t[i]) != f(t[j]) {
      if j == |s| {
        assert s[i] in s;
      } else {
        assert t[i] == s[i] && t[j] == s[j];
      }
    }
    forall i, j | 0 <= i < j < |s| && DistinctBy(t, f) ensures f(s[i]) != f(s[j]) {
      assert t[i] == s[i] && t[j] == s[j];
    }
  }

  /** Position of the first element on which `f` is `v`. */
  function FirstIndexBy<T(==), U(==)>(s: seq<T>, f: T -> U, v: U): (i: nat)
    requires v in Image(s, f)
    ensures i < |s| && f(s[i]) == v
    ensures forall k | 0 <= k < i :: f(s[k]) != v
  {
    if f(s[0]) == v then 0
    else
      assert s == [s[0]] + s[1..];
      var x :| x in s && f(x) == v;
      assert x in s[1..];
      1 + FirstIndexBy(s[1..], f, v)
  }

  /** Appending an element does not move the first position of a value already taken. */
  lemma FirstIndexByAppendOld<T, U>(s: seq<T>, x: T, f: T -> U, v: U)
    requires v in Image(s, f)
    ensures v in Image(s + [x], f)
    ensures FirstIndexBy(s + [x], f, v) == FirstIndexBy(s, f, v)
  {
    ImageAppend(s, x, f);
    assert forall k | 0 <= k < |s| :: (s + [x])[k] == s[k];
  }

  /** An appended element with a new value is where that value first occurs. */
  lemma FirstIndexByAppendNew<T, U>(s: seq<T>, x: T, f: T -> U)
    requires f(x) !in Image(s, f)
    ensures f(x) in Image(s + [x], f)
    ensures FirstIndexBy(s + [x], f, f(x)) == |s|
  {
    ImageAppend(s, x, f);
    assert forall k | 0 <= k < |s| :: (s + [x])[k] == s[k] && s[k] in s;
  }

  /** `f` applied to every element, in place. */
  function Map<T, U>(s: seq<T>, f: T -> U): (r: seq<U>)
    ensures |r| == |s|
    ensures forall i | 0 <= i < |s| :: r[i] == f(s[i])
  {
    seq(|s|, i requires 0 <= i < |s| => f(s[i]))
  }

  lemma MapAppend<T, U>(s: seq<T>, x: T, f: T -> U)
    ensures Map(s + [x], f) == Map(s, f) + [f(x)]
  {
  }

  /** A map whose function fixes every element changes nothing. */
  lemma MapOfFixedPoints<T>(s: seq<T>, f: T -> T)
    requires forall x | x in s :: f(x) == x
    ensures Map(s, f) == s
  {
    assert forall i | 0 <= i < |s| :: s[i] in s;
  }
}
