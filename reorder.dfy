/**
  The reordering step of `reorderTasks`:
  `tasks.sort((a, b) => ids.indexOf(a.id) - ids.indexOf(b.id))`, where `ids`
  is the id order read back from the rendered list. Since ECMAScript 2019
  `Array.prototype.sort` is stable, so the step is a stable sort by the
  position of each task's id in `ids`; an id that `ids` lacks has position -1.
*/
module Reorder {
  import opened Seqs
  import opened Tasks
  import opened Text

  /** `Array.prototype.indexOf` on numbers: the first index holding `x`, or -1
      when there is none. */
  function IndexOf(xs: seq<int>, x: int): (k: int)
    ensures -1 <= k < |xs|
    ensures k == -1 <==> x !in xs
    ensures 0 <= k ==> xs[k] == x && x !in xs[..k]
  {
    if xs == [] then -1
    else if xs[0] == x then 0
    else
      var k := IndexOf(xs[1..], x);
      if k == -1 then -1
      else
        assert xs[..k + 1] == [xs[0]] + xs[1..][..k];
        k + 1
  }

  /** The sort key of `reorderTasks`: a task's position in `ids`. */
  function KeyOf(ids: seq<int>): (key: Task -> int)
    ensures forall t :: -1 <= key(t) < |ids| && (key(t) == -1 <==> t.id !in ids)
    ensures forall t :: 0 <= key(t) ==> ids[key(t)] == t.id && t.id !in ids[..key(t)]
  {
    (t: Task) => IndexOf(ids, t.id)
  }

  /** The elements whose key is `k`: one key class. */
  function HasKey<T>(key: T -> int, k: int): T -> bool {
    (x: T) => key(x) == k
  }

  /** Keys never decrease along `s`. */
  ghost predicate SortedBy<T>(key: T -> int, s: seq<T>) {
    forall i, j :: 0 <= i < j < |s| ==> key(s[i]) <= key(s[j])
  }

  /** Puts `x` in front of the first element of `s` whose key is not smaller. */
  function InsertBy<T>(key: T -> int, x: T, s: seq<T>): (r: seq<T>)
    ensures multiset(r) == multiset(s) + multiset{x}
  {
    if s == [] then [x]
    else if key(x) <= key(s[0]) then [x] + s
    else
      assert s == [s[0]] + s[1..];
      [s[0]] + InsertBy(key, x, s[1..])
  }

  /** Inserting into a sorted list keeps it sorted. */
  lemma {:induction false} InsertKeepsSorted<T>(key: T -> int, x: T, s: seq<T>)
    requires SortedBy(key, s)
    ensures SortedBy(key, InsertBy(key, x, s))
  {
    if s != [] && key(x) > key(s[0]) {
      var rest := InsertBy(key, x, s[1..]);
      InsertKeepsSorted(key, x, s[1..]);
      forall j | 0 <= j < |rest| ensures key(s[0]) <= key(rest[j]) {
        assert rest[j] in multiset(rest);
        if rest[j] != x {
          assert rest[j] in s[1..];
        }
      }
    }
  }

  /** The stable sort of `Array.prototype.sort` with a comparator that
      subtracts keys, written as an insertion sort in which each element goes
      in front of the already sorted later elements of equal key. The result is
      a permutation of `s` sorted by key. */
  function SortBy<T>(key: T -> int, s: seq<T>): (r: seq<T>)
    ensures multiset(r) == multiset(s)
    ensures SortedBy(key, r)
  {
    if s == [] then []
    else
      assert s == [s[0]] + s[1..];
      InsertKeepsSorted(key, s[0], SortBy(key, s[1..]));
      InsertBy(key, s[0], SortBy(key, s[1..]))
  }

  /** Inserting adds `x` to its own key class, in front, and leaves every other
      key class as it was. */
  lemma {:induction false} InsertClasses<T>(key: T -> int, x: T, s: seq<T>, k: int)
    ensures Filter(HasKey(key, k), InsertBy(key, x, s))
         == (if key(x) == k then [x] else []) + Filter(HasKey(key, k), s)
  {
    if s != [] && key(x) > key(s[0]) {
      InsertClasses(key, x, s[1..], k);
      assert InsertBy(key, x, s) == [s[0]] + InsertBy(key, x, s[1..]);
    }
  }

  /** Stability: for every key, the elements of that key appear in the sorted
      list in the same order as in the original list. */
  lemma {:induction false} SortIsStable<T>(key: T -> int, s: seq<T>, k: int)
    ensures Filter(HasKey(key, k), SortBy(key, s)) == Filter(HasKey(key, k), s)
  {
    if s != [] {
      SortIsStable(key, s[1..], k);
      InsertClasses(key, s[0], SortBy(key, s[1..]), k);
    }
  }

  /** In a list sorted by key, the elements of the least possible key `lo` form
      a prefix, and every later element has a larger key. */
  lemma {:induction false} LeastKeyPrefix<T>(key: T -> int, lo: int, r: seq<T>)
    requires SortedBy(key, r)
    requires forall i :: 0 <= i < |r| ==> lo <= key(r[i])
    ensures var m := Filter(HasKey(key, lo), r);
      && |m| <= |r| && r[..|m|] == m
      && forall i :: |m| <= i < |r| ==> lo < key(r[i])
  {
    if r != [] {
      var p := HasKey(key, lo);
      if key(r[0]) == lo {
        var t := r[1..];
        SortedTail(key, r);
        LeastKeyPrefix(key, lo, t);
        FilterCons(p, r);
        var m' := Filter(p, t);
        assert r[..1 + |m'|] == [r[0]] + t[..|m'|];
        assert forall i :: 1 + |m'| <= i < |r| ==> r[i] == t[i - 1];
      } else {
        FilterKeepsNone(p, r);
      }
    }
  }

  lemma SortedTail<T>(key: T -> int, r: seq<T>)
    requires r != [] && SortedBy(key, r)
    ensures SortedBy(key, r[1..])
  {
    var t := r[1..];
    forall i, j | 0 <= i < j < |t| ensures key(t[i]) <= key(t[j]) {
      assert t[i] == r[i + 1] && t[j] == r[j + 1];
    }
  }

  /** `reorderTasks`: the tasks whose ids are missing from `ids` have key -1:
      they come first, in their original order, and every task after them has
      a listed id. */
  lemma UnlistedFirst(ids: seq<int>, s: seq<Task>)
    ensures var r, m := SortBy(KeyOf(ids), s), Filter(HasKey(KeyOf(ids), -1), s);
      && (forall i :: 0 <= i < |m| ==> m[i].id !in ids)
      && |m| <= |r| && r[..|m|] == m
      && forall i :: |m| <= i < |r| ==> r[i].id in ids
  {
    var r := SortBy(KeyOf(ids), s);
    SortIsStable(KeyOf(ids), s, -1);
    LeastKeyPrefix(KeyOf(ids), -1, r);
  }

  /** The sort is determined by its specification: a list sorted by key in
      which each key class holds the elements of `s` in the order of `s` is
      exactly `SortBy(key, s)`. */
  lemma SortIsUnique<T>(key: T -> int, s: seq<T>, r: seq<T>)
    requires SortedBy(key, r)
    requires forall k :: Filter(HasKey(key, k), r) == Filter(HasKey(key, k), s)
    ensures r == SortBy(key, s)
  {
    var q := SortBy(key, s);
    forall k ensures Filter(HasKey(key, k), r) == Filter(HasKey(key, k), q) {
      SortIsStable(key, s, k);
    }
    SameClassesEqual(key, r, q);
  }

  /** Two lists sorted by key with the same key classes are equal. */
  lemma {:induction false} SameClassesEqual<T>(key: T -> int, a: seq<T>, b: seq<T>)
    requires SortedBy(key, a) && SortedBy(key, b)
    requires forall k :: Filter(HasKey(key, k), a) == Filter(HasKey(key, k), b)
    ensures a == b
    decreases |a|
  {
    FirstOfClass(key, a);
    FirstOfClass(key, b);
    if a != [] && b != [] {
      FirstKeyIsLeast(key, a, b);
      FirstKeyIsLeast(key, b, a);
      assert key(a[0]) == key(b[0]);
      SameTailClasses(key, a, b);
      SameClassesEqual(key, a[1..], b[1..]);
      assert a == [a[0]] + a[1..] && b == [b[0]] + b[1..];
    }
  }

  /** A non-empty list's first element leads its own key class. */
  lemma FirstOfClass<T>(key: T -> int, a: seq<T>)
    ensures a != [] ==> var f := Filter(HasKey(key, key(a[0])), a); f != [] && f[0] == a[0]
  {
  }

  /** Lists that start alike and have the same key classes still have the same
      key classes without their first element. */
  lemma SameTailClasses<T>(key: T -> int, a: seq<T>, b: seq<T>)
    requires a != [] && b != [] && a[0] == b[0]
    requires forall k :: Filter(HasKey(key, k), a) == Filter(HasKey(key, k), b)
    ensures forall k :: Filter(HasKey(key, k), a[1..]) == Filter(HasKey(key, k), b[1..])
  {
    forall k ensures Filter(HasKey(key, k), a[1..]) == Filter(HasKey(key, k), b[1..]) {
      var p := HasKey(key, k);
      FilterCons(p, a);
      FilterCons(p, b);
      var head := if p(a[0]) then [a[0]] else [];
      assert Filter(p, a[1..]) == Filter(p, a)[|head|..];
      assert Filter(p, b[1..]) == Filter(p, b)[|head|..];
    }
  }

  /** The first element of a sorted list has a key no larger than that of the
      first element of another list with the same key classes. */
  lemma FirstKeyIsLeast<T>(key: T -> int, a: seq<T>, b: seq<T>)
    requires a != [] && b != [] && SortedBy(key, a)
    requires forall k :: Filter(HasKey(key, k), a) == Filter(HasKey(key, k), b)
    ensures key(a[0]) <= key(b[0])
  {
    var kb := key(b[0]);
    var f := Filter(HasKey(key, kb), b);
    assert b[0] in f;
    assert f == Filter(HasKey(key, kb), a);
    var j :| 0 <= j < |a| && a[j] == b[0];
    assert j == 0 || key(a[0]) <= key(a[j]);
  }

  /** Sorting permutes the ids with the tasks. */
  lemma SortIds(key: Task -> int, s: seq<Task>)
    ensures multiset(IdsOf(SortBy(key, s))) == multiset(IdsOf(s))
  {
    PermutedIds(SortBy(key, s), s);
  }

  /** When `ids` lists each task id exactly once, the sorted list follows `ids`. */
  lemma SortFollowsIds(ids: seq<int>, s: seq<Task>)
    requires NoDup(ids)
    requires multiset(IdsOf(s)) == multiset(ids)
    ensures IdsOf(SortBy(KeyOf(ids), s)) == ids
  {
    var r := SortBy(KeyOf(ids), s);
    SortedIdsListed(ids, s);
    ListedKeysFollowIds(ids, r);
  }

  /** A sorted list of `|ids|` tasks with distinct ids, all listed in `ids`,
      carries the ids of `ids` in their order. */
  lemma ListedKeysFollowIds(ids: seq<int>, r: seq<Task>)
    requires SortedBy(KeyOf(ids), r)
    requires |r| == |ids| && NoDup(IdsOf(r))
    requires forall i :: 0 <= i < |r| ==> r[i].id in ids
    ensures IdsOf(r) == ids
  {
    var keys := seq(|r|, i requires 0 <= i < |r| => IndexOf(ids, r[i].id));
    assert forall i :: 0 <= i < |r| ==> 0 <= keys[i] < |keys| && ids[keys[i]] == r[i].id;
    forall i | 0 <= i < |keys| - 1 ensures keys[i] < keys[i + 1] {
      assert KeyOf(ids)(r[i]) <= KeyOf(ids)(r[i + 1]);
      assert IdsOf(r)[i] != IdsOf(r)[i + 1];
    }
    StrictlyIncreasingInRange(keys);
  }

  /** Under the same condition the sorted list has as many tasks as `ids`, no
      id twice, and only ids that `ids` lists. */
  lemma SortedIdsListed(ids: seq<int>, s: seq<Task>)
    requires NoDup(ids)
    requires multiset(IdsOf(s)) == multiset(ids)
    ensures var r := SortBy(KeyOf(ids), s);
      && |r| == |ids| && NoDup(IdsOf(r))
      && forall i :: 0 <= i < |r| ==> r[i].id in ids
  {
    var got := IdsOf(SortBy(KeyOf(ids), s));
    SortIds(KeyOf(ids), s);
    NoDupCount(ids);
    NoDupCount(got);
    assert |got| == |ids| by {
      assert |multiset(got)| == |multiset(ids)|;
    }
    forall i | 0 <= i < |got| ensures got[i] in ids {
      assert got[i] in multiset(got);
    }
  }

  /** Sorting keeps the list well formed. */
  lemma SortKeepsWellFormed(key: Task -> int, s: seq<Task>)
    requires WellFormed(s)
    ensures WellFormed(SortBy(key, s))
  {
    var r := SortBy(key, s);
    SortIds(key, s);
    NoDupCount(IdsOf(s));
    NoDupCount(IdsOf(r));
    forall i | 0 <= i < |r| ensures r[i].text != [] && IsTrimmed(r[i].text) {
      assert r[i] in multiset(s);
      var j :| 0 <= j < |s| && s[j] == r[i];
    }
  }
}
