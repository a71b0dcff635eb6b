/**
  A stable sort by a "goes before" relation, as `Array.prototype.sort` does
  with a consistent comparator: `before(a, b)` holds when the comparator
  returns a negative number for `(a, b)`. `SortBy` is the specification
  (insertion from the right, so equal elements keep their order), and
  `SortInPlace` is the in-place algorithm proved to produce it.
 */
module StableSort {

  /**
    What a consistent comparator guarantees: `before` is irreflexive,
    transitive, and "not before" is transitive too.
   */
  ghost predicate StrictWeakOrder<T(!new)>(before: (T, T) -> bool) {
    && (forall a :: !before(a, a))
    && (forall a, b, c :: before(a, b) && before(b, c) ==> before(a, c))
    && (forall a, b, c :: !before(a, b) && !before(b, c) ==> !before(a, c))
  }

  /** No element goes before an element to its left. */
  ghost predicate Sorted<T>(before: (T, T) -> bool, s: seq<T>) {
    forall i, j :: 0 <= i < j < |s| ==> !before(s[j], s[i])
  }

  /** Neither goes before the other: the comparator returns 0. */
  predicate Tied<T>(before: (T, T) -> bool, a: T, b: T) {
    !before(a, b) && !before(b, a)
  }

  /** The elements of `s` tied with `y`, in their order in `s`. */
  function TiedWith<T>(before: (T, T) -> bool, s: seq<T>, y: T): seq<T>
    decreases |s|
  {
    if s == [] then []
    else TiedWith(before, s[..|s| - 1], y) + (if Tied(before, s[|s| - 1], y) then [s[|s| - 1]] else [])
  }

  /** Inserts `x` after the last element that `x` does not go before. */
  function Insert<T>(before: (T, T) -> bool, s: seq<T>, x: T): seq<T>
    decreases |s|
  {
    if s == [] || !before(x, s[|s| - 1]) then s + [x]
    else Insert(before, s[..|s| - 1], x) + [s[|s| - 1]]
  }

  /** Stable insertion sort of `s`. */
  function SortBy<T>(before: (T, T) -> bool, s: seq<T>): seq<T>
    decreases |s|
  {
    if s == [] then [] else Insert(before, SortBy(before, s[..|s| - 1]), s[|s| - 1])
  }

  /** `Array.prototype.sort` on `a`: afterwards `a` holds the stable sort of its old contents. */
  method SortInPlace<T>(a: array<T>, before: (T, T) -> bool)
    modifies a
    ensures a[..] == SortBy(before, old(a[..]))
  {
    for i := 0 to a.Length
      invariant a[..i] == SortBy(before, old(a[..i]))
      invariant a[i..] == old(a[i..])
    {
      InsertAt(a, i, before);
      assert old(a[..i + 1]) == old(a[..i]) + [old(a[i])];
    }
    assert a[..a.Length] == a[..];
    assert old(a[..a.Length]) == old(a[..]);
  }

  /** One pass of the sort: moves `a[i]` left into the prefix `a[..i]`. */
  method InsertAt<T>(a: array<T>, i: nat, before: (T, T) -> bool)
    requires i < a.Length
    modifies a
    ensures a[..i + 1] == Insert(before, old(a[..i]), old(a[i]))
    ensures a[i + 1..] == old(a[i + 1..])
  {
    ghost var sorted := a[..i];
    var x := a[i];
    var j := i;
    while j > 0 && before(x, a[j - 1])
      invariant 0 <= j <= i
      invariant forall k :: 0 <= k < j ==> a[k] == sorted[k]
      invariant forall k :: j < k <= i ==> a[k] == sorted[k - 1]
      invariant forall k :: i < k < a.Length ==> a[k] == old(a[k])
      invariant forall k :: j <= k < i ==> before(x, sorted[k])
    {
      a[j] := a[j - 1];
      j := j - 1;
    }
    a[j] := x;
    InsertLands(before, sorted, x, j);
    ghost var inserted := sorted[..j] + [x] + sorted[j..];
    assert forall k :: 0 <= k <= i ==> a[k] == inserted[k];
    assert a[..i + 1] == inserted;
  }

  /**
    `x` lands right after the last element it does not go before: when it
    goes before every element from `j` on, and not before the one at `j - 1`,
    it is inserted at `j`.
   */
  lemma {:induction false} InsertLands<T>(before: (T, T) -> bool, s: seq<T>, x: T, j: nat)
    requires j <= |s|
    requires forall k :: j <= k < |s| ==> before(x, s[k])
    requires j == 0 || !before(x, s[j - 1])
    ensures Insert(before, s, x) == s[..j] + [x] + s[j..]
    decreases |s|
  {
    if j < |s| {
      var n := |s| - 1;
      InsertLands(before, s[..n], x, j);
      assert s[..n][..j] == s[..j];
      assert s[j..] == s[..n][j..] + [s[n]];
    } else {
      assert s[..j] == s;
    }
  }

  // ---------------------------------------------------------------------------
  // Properties of the specification

  lemma {:induction false} InsertPermutes<T>(before: (T, T) -> bool, s: seq<T>, x: T)
    ensures multiset(Insert(before, s, x)) == multiset(s) + multiset{x}
    decreases |s|
  {
    if s != [] && before(x, s[|s| - 1]) {
      InsertPermutes(before, s[..|s| - 1], x);
      assert s == s[..|s| - 1] + [s[|s| - 1]];
    }
  }

  /** The sort rearranges its input and neither drops nor adds an element. */
  lemma {:induction false} SortByPermutes<T>(before: (T, T) -> bool, s: seq<T>)
    ensures multiset(SortBy(before, s)) == multiset(s)
    ensures |SortBy(before, s)| == |s|
    decreases |s|
  {
    if s != [] {
      SortByPermutes(before, s[..|s| - 1]);
      InsertPermutes(before, SortBy(before, s[..|s| - 1]), s[|s| - 1]);
      assert s == s[..|s| - 1] + [s[|s| - 1]];
    }
    assert |SortBy(before, s)| == |multiset(SortBy(before, s))|;
  }

  lemma {:induction false} InsertSorted<T(!new)>(before: (T, T) -> bool, s: seq<T>, x: T)
    requires StrictWeakOrder(before)
    requires Sorted(before, s)
    ensures Sorted(before, Insert(before, s, x))
    decreases |s|
  {
    var r := Insert(before, s, x);
    if s == [] || !before(x, s[|s| - 1]) {
      forall i, j | 0 <= i < j < |r| ensures !before(r[j], r[i]) {
        if j == |s| && i < |s| - 1 {
          assert !before(s[|s| - 1], s[i]);
        }
      }
    } else {
      var p := s[..|s| - 1];
      var e := s[|s| - 1];
      InsertSorted(before, p, x);
      InsertPermutes(before, p, x);
      var q := Insert(before, p, x);
      forall i, j | 0 <= i < j < |r| ensures !before(r[j], r[i]) {
        if j == |r| - 1 {
          assert r[j] == e && r[i] == q[i];
          assert r[i] in multiset(p) + multiset{x} by {
            assert q[i] in multiset(q);
          }
          if r[i] != x {
            assert r[i] in p;
            var k :| 0 <= k < |p| && p[k] == r[i];
            assert s[k] == r[i];
          }
        }
      }
    }
  }

  /** The sort leaves no element after one that it goes before. */
  lemma {:induction false} SortBySorted<T(!new)>(before: (T, T) -> bool, s: seq<T>)
    requires StrictWeakOrder(before)
    ensures Sorted(before, SortBy(before, s))
    decreases |s|
  {
    if s != [] {
      SortBySorted(before, s[..|s| - 1]);
      InsertSorted(before, SortBy(before, s[..|s| - 1]), s[|s| - 1]);
    }
  }

  lemma {:induction false} InsertStable<T(!new)>(before: (T, T) -> bool, s: seq<T>, x: T, y: T)
    requires StrictWeakOrder(before)
    ensures TiedWith(before, Insert(before, s, x), y)
         == TiedWith(before, s, y) + (if Tied(before, x, y) then [x] else [])
    decreases |s|
  {
    var r := Insert(before, s, x);
    if s == [] || !before(x, s[|s| - 1]) {
      assert r[..|r| - 1] == s;
    } else {
      var p := s[..|s| - 1];
      var e := s[|s| - 1];
      InsertStable(before, p, x, y);
      assert r[..|r| - 1] == Insert(before, p, x);
      assert !(Tied(before, x, y) && Tied(before, e, y));
    }
  }

  /** Stability: the elements tied with any `y` come out in the order they went in. */
  lemma {:induction false} SortByStable<T(!new)>(before: (T, T) -> bool, s: seq<T>, y: T)
    requires StrictWeakOrder(before)
    ensures TiedWith(before, SortBy(before, s), y) == TiedWith(before, s, y)
    decreases |s|
  {
    if s != [] {
      var p := s[..|s| - 1];
      SortByStable(before, p, y);
      InsertStable(before, SortBy(before, p), s[|s| - 1], y);
    }
  }
}
