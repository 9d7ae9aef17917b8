/**
  Sequence vocabulary behind `Array.prototype.filter` and the id checks:
  filtering, subsequences and duplicate-freedom, with the facts the task list
  needs about them.
*/
module Seqs {

  /** `Array.prototype.filter`: the elements of `s` that satisfy `p`, in order. */
  function Filter<T>(p: T -> bool, s: seq<T>): (r: seq<T>)
    ensures |r| <= |s|
    ensures forall i :: 0 <= i < |r| ==> r[i] in s && p(r[i])
    ensures forall i :: 0 <= i < |s| && p(s[i]) ==> s[i] in r
  {
    if s == [] then []
    else if p(s[0]) then [s[0]] + Filter(p, s[1..])
    else Filter(p, s[1..])
  }

  /** `r` can be obtained from `s` by deleting elements: the first element of `s`
      either supplies the first element of `r` or is skipped. */
  ghost predicate IsSubsequence<T>(r: seq<T>, s: seq<T>)
    decreases |s|
  {
    || r == []
    || (s != [] && ((r[0] == s[0] && IsSubsequence(r[1..], s[1..])) || IsSubsequence(r, s[1..])))
  }

  /** No value occurs twice. */
  ghost predicate NoDup<T>(xs: seq<T>) {
    forall i, j :: 0 <= i < j < |xs| ==> xs[i] != xs[j]
  }

  /** Every sequence is a subsequence of itself. */
  lemma {:induction false} SubsequenceReflexive<T>(s: seq<T>)
    ensures IsSubsequence(s, s)
  {
    if s != [] {
      SubsequenceReflexive(s[1..]);
    }
  }

  /** Filtering distributes over concatenation. */
  lemma {:induction false} FilterConcat<T>(p: T -> bool, a: seq<T>, b: seq<T>)
    ensures Filter(p, a + b) == Filter(p, a) + Filter(p, b)
  {
    if a == [] {
      assert a + b == b;
    } else {
      assert (a + b)[0] == a[0] && (a + b)[1..] == a[1..] + b;
      FilterConcat(p, a[1..], b);
    }
  }

  /** A filter that every element passes keeps the whole sequence. */
  lemma {:induction false} FilterKeepsAll<T>(p: T -> bool, s: seq<T>)
    requires forall i :: 0 <= i < |s| ==> p(s[i])
    ensures Filter(p, s) == s
  {
    if s != [] {
      FilterKeepsAll(p, s[1..]);
    }
  }

  /** One step of the filter. */
  lemma FilterCons<T>(p: T -> bool, s: seq<T>)
    requires s != []
    ensures Filter(p, s) == (if p(s[0]) then [s[0]] else []) + Filter(p, s[1..])
  {
  }

  /** A filter that no element passes keeps nothing. */
  lemma {:induction false} FilterKeepsNone<T>(p: T -> bool, s: seq<T>)
    requires forall i :: 0 <= i < |s| ==> !p(s[i])
    ensures Filter(p, s) == []
  {
    if s != [] {
      FilterKeepsNone(p, s[1..]);
    }
  }

  /** Filtering twice by the same predicate is filtering once. */
  lemma FilterIdempotent<T>(p: T -> bool, s: seq<T>)
    ensures Filter(p, Filter(p, s)) == Filter(p, s)
  {
    FilterKeepsAll(p, Filter(p, s));
  }

  /** A filter keeps the order of `s`: its result is a subsequence of `s`. */
  lemma {:induction false} FilterIsSubsequence<T>(p: T -> bool, s: seq<T>)
    ensures IsSubsequence(Filter(p, s), s)
  {
    if s != [] {
      FilterIsSubsequence(p, s[1..]);
      var r := Filter(p, s);
      if p(s[0]) {
        assert r[0] == s[0] && r[1..] == Filter(p, s[1..]);
      }
    }
  }

  /** Filter by `p` and by its negation `q` split `s` into two parts: together
      they hold every element of `s` exactly as often as `s` does. */
  lemma {:induction false} FilterPartition<T>(p: T -> bool, q: T -> bool, s: seq<T>)
    requires forall x :: q(x) == !p(x)
    ensures multiset(Filter(p, s)) + multiset(Filter(q, s)) == multiset(s)
    ensures |Filter(p, s)| + |Filter(q, s)| == |s|
  {
    if s != [] {
      FilterPartition(p, q, s[1..]);
      assert s == [s[0]] + s[1..];
    }
  }

  /** Two sequences that agree positionwise on `p` keep equally many elements. */
  lemma {:induction false} FilterAligned<T>(p: T -> bool, a: seq<T>, b: seq<T>)
    requires |a| == |b|
    requires forall i :: 0 <= i < |a| ==> p(a[i]) == p(b[i])
    ensures |Filter(p, a)| == |Filter(p, b)|
  {
    if a != [] {
      FilterAligned(p, a[1..], b[1..]);
    }
  }

  /** A subsequence is no longer than the sequence, and one of the same length
      is the sequence itself. */
  lemma {:induction false} SubsequenceLength<T>(r: seq<T>, s: seq<T>)
    requires IsSubsequence(r, s)
    ensures |r| <= |s|
    ensures |r| == |s| ==> r == s
    decreases |s|
  {
    if r != [] {
      if r[0] == s[0] && IsSubsequence(r[1..], s[1..]) {
        SubsequenceLength(r[1..], s[1..]);
        if |r| == |s| {
          assert r == [r[0]] + r[1..] && s == [s[0]] + s[1..];
        }
      } else {
        SubsequenceLength(r, s[1..]);
      }
    }
  }

  /** Every subsequence of `s` whose elements all satisfy `p` is a subsequence of
      `Filter(p, s)`. */
  lemma {:induction false} SubsequenceOfFilter<T>(p: T -> bool, r: seq<T>, s: seq<T>)
    requires IsSubsequence(r, s)
    requires forall i :: 0 <= i < |r| ==> p(r[i])
    ensures IsSubsequence(r, Filter(p, s))
    decreases |s|
  {
    if r != [] {
      var f := Filter(p, s);
      if r[0] == s[0] && IsSubsequence(r[1..], s[1..]) {
        SubsequenceOfFilter(p, r[1..], s[1..]);
        assert f[0] == s[0] && f[1..] == Filter(p, s[1..]);
      } else {
        SubsequenceOfFilter(p, r, s[1..]);
        if p(s[0]) {
          assert f[1..] == Filter(p, s[1..]);
        }
      }
    }
  }

  /** `Filter(p, s)` is characterised without its definition: it is the longest
      subsequence of `s` whose elements all satisfy `p`, and the only one of
      that length. */
  lemma FilterIsLongest<T>(p: T -> bool, r: seq<T>, s: seq<T>)
    requires IsSubsequence(r, s)
    requires forall i :: 0 <= i < |r| ==> p(r[i])
    ensures |r| <= |Filter(p, s)|
    ensures |r| == |Filter(p, s)| ==> r == Filter(p, s)
  {
    SubsequenceOfFilter(p, r, s);
    SubsequenceLength(r, Filter(p, s));
  }

  /** Removing the element at index `j` removes one occurrence of it. */
  lemma MultisetRemove<T>(b: seq<T>, j: int)
    requires 0 <= j < |b|
    ensures multiset(b) == multiset(b[..j] + b[j + 1..]) + multiset{b[j]}
  {
    assert b == b[..j] + [b[j]] + b[j + 1..];
  }

  lemma MultisetCons<T>(b: seq<T>)
    requires b != []
    ensures multiset(b) == multiset(b[1..]) + multiset{b[0]}
  {
    assert b == [b[0]] + b[1..];
  }

  lemma MultisetCancel<T>(x: T, m: multiset<T>, n: multiset<T>)
    requires m + multiset{x} == n + multiset{x}
    ensures m == n
  {
    forall y ensures m[y] == n[y] {
      assert (m + multiset{x})[y] == (n + multiset{x})[y];
    }
  }

  /** A sequence without duplicates holds each value at most once, and
      conversely. */
  lemma {:induction false} NoDupCount<T>(xs: seq<T>)
    ensures NoDup(xs) <==> forall x :: multiset(xs)[x] <= 1
  {
    if NoDup(xs) {
      NoDupAtMostOnce(xs);
    }
    if !NoDup(xs) {
      var i, j :| 0 <= i < j < |xs| && xs[i] == xs[j];
      var v := xs[i];
      assert xs == xs[..j] + xs[j..];
      assert xs[..j][i] == v && xs[j..][0] == v;
      assert multiset(xs)[v] == multiset(xs[..j])[v] + multiset(xs[j..])[v];
    }
  }

  lemma {:induction false} NoDupAtMostOnce<T>(xs: seq<T>)
    requires NoDup(xs)
    ensures forall x :: multiset(xs)[x] <= 1
  {
    if xs != [] {
      NoDupAtMostOnce(xs[1..]);
      assert xs == [xs[0]] + xs[1..];
      assert xs[0] !in xs[1..];
    }
  }

  /** A strictly increasing sequence of `n` numbers drawn from `0..n-1` is
      `0, 1, ..., n-1`. */
  lemma StrictlyIncreasingInRange(a: seq<int>)
    requires forall i :: 0 <= i < |a| ==> 0 <= a[i] < |a|
    requires forall i :: 0 <= i < |a| - 1 ==> a[i] < a[i + 1]
    ensures forall i :: 0 <= i < |a| ==> a[i] == i
  {
    forall i | 0 <= i < |a| ensures a[i] == i {
      IncreasingFromBelow(a, i);
      IncreasingFromAbove(a, i);
    }
  }

  lemma {:induction false} IncreasingFromBelow(a: seq<int>, i: nat)
    requires i < |a|
    requires forall j :: 0 <= j < |a| ==> 0 <= a[j]
    requires forall j :: 0 <= j < |a| - 1 ==> a[j] < a[j + 1]
    ensures a[i] >= i
  {
    if i > 0 {
      IncreasingFromBelow(a, i - 1);
    }
  }

  lemma {:induction false} IncreasingFromAbove(a: seq<int>, i: nat)
    requires i < |a|
    requires forall j :: 0 <= j < |a| ==> a[j] < |a|
    requires forall j :: 0 <= j < |a| - 1 ==> a[j] < a[j + 1]
    ensures a[i] <= i
    decreases |a| - i
  {
    if i < |a| - 1 {
      IncreasingFromAbove(a, i + 1);
    }
  }
}
