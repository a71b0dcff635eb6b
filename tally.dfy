/**
  The find-or-push accumulator that every command builds: an array of rows,
  searched with `find` for the row whose key matches; a match has its count
  raised, a miss pushes a new row. `Counts` is the specification of one pass
  with weight 1 per item (`existing.Commits++` / `push({..., Commits: 1})`),
  `Accumulate` is one step of any such pass, and `Tally` is the loop itself.
 */
module Tally {

  /** One accumulator row: the key it is found by and the count it holds. */
  datatype Bucket<K> = Bucket(key: K, count: nat)

  /** The index `find` stops at: the first row with key `k`, or `|rows|` when there is none. */
  function FindKey<K(==)>(rows: seq<Bucket<K>>, k: K): (i: nat)
    ensures i <= |rows|
    ensures forall j :: 0 <= j < i ==> rows[j].key != k
    ensures i < |rows| ==> rows[i].key == k
    decreases |rows|
  {
    if rows == [] then 0
    else if rows[0].key == k then 0
    else 1 + FindKey(rows[1..], k)
  }

  /** One step: add `w` to the row for `k`, or push a new row holding `w`. */
  function Accumulate<K(==)>(rows: seq<Bucket<K>>, k: K, w: nat): seq<Bucket<K>> {
    var i := FindKey(rows, k);
    if i < |rows| then rows[i := rows[i].(count := rows[i].count + w)]
    else rows + [Bucket(k, w)]
  }

  /** The rows after one pass over `keys`, one commit each. */
  function Counts<K(==)>(keys: seq<K>): seq<Bucket<K>>
    decreases |keys|
  {
    if keys == [] then [] else Accumulate(Counts(keys[..|keys| - 1]), keys[|keys| - 1], 1)
  }

  function KeysOf<K>(rows: seq<Bucket<K>>): (ks: seq<K>)
    ensures |ks| == |rows|
    ensures forall i :: 0 <= i < |rows| ==> ks[i] == rows[i].key
  {
    seq(|rows|, i requires 0 <= i < |rows| => rows[i].key)
  }

  /** The sum of the counts of `rows`. */
  function Total<K>(rows: seq<Bucket<K>>): int
    decreases |rows|
  {
    if rows == [] then 0 else rows[0].count + Total(rows[1..])
  }

  ghost predicate UniqueKeys<K>(rows: seq<Bucket<K>>) {
    forall i, j :: 0 <= i < j < |rows| ==> rows[i].key != rows[j].key
  }

  /** The position of the first occurrence of `k` in `keys`. */
  function FirstIndex<K(==)>(keys: seq<K>, k: K): (i: nat)
    requires k in keys
    ensures i < |keys| && keys[i] == k && k !in keys[..i]
    decreases |keys|
  {
    if keys[0] == k then 0 else 1 + FirstIndex(keys[1..], k)
  }

  /**
    The loop the commands run: for each key, `find` the matching row, then
    increment it in place or push a fresh row with count 1.
   */
  method TallyKeys<K(==)>(keys: seq<K>) returns (rows: seq<Bucket<K>>)
    ensures rows == Counts(keys)
  {
    rows := [];
    for n := 0 to |keys|
      invariant rows == Counts(keys[..n])
    {
      var k := keys[n];
      var i := 0;
      while i < |rows| && rows[i].key != k
        invariant 0 <= i <= |rows|
        invariant forall j :: 0 <= j < i ==> rows[j].key != k
      {
        i := i + 1;
      }
      FindKeyIsFirstMatch(rows, k, i);
      if i < |rows| {
        rows := rows[i := rows[i].(count := rows[i].count + 1)];
      } else {
        rows := rows + [Bucket(k, 1)];
      }
      assert keys[..n + 1][..n] == keys[..n];
    }
    assert keys[..|keys|] == keys;
  }

  /** `FindKey` is characterised by its contract: the first match, or the end. */
  lemma {:induction false} FindKeyIsFirstMatch<K>(rows: seq<Bucket<K>>, k: K, i: nat)
    requires i <= |rows|
    requires forall j :: 0 <= j < i ==> rows[j].key != k
    requires i < |rows| ==> rows[i].key == k
    ensures FindKey(rows, k) == i
  {
  }

  // ---------------------------------------------------------------------------
  // One step

  /** A step keeps the old keys in place and appends `k` exactly when it was new. */
  lemma {:induction false} AccumulateKeys<K>(rows: seq<Bucket<K>>, k: K, w: nat)
    ensures KeysOf(Accumulate(rows, k, w)) ==
            if k in KeysOf(rows) then KeysOf(rows) else KeysOf(rows) + [k]
  {
    var i := FindKey(rows, k);
    if i < |rows| {
      assert KeysOf(rows)[i] == k;
    }
  }

  lemma {:induction false} AccumulateUnique<K>(rows: seq<Bucket<K>>, k: K, w: nat)
    requires UniqueKeys(rows)
    ensures UniqueKeys(Accumulate(rows, k, w))
  {
    AccumulateKeys(rows, k, w);
    var r := Accumulate(rows, k, w);
    forall i, j | 0 <= i < j < |r| ensures r[i].key != r[j].key {
      assert KeysOf(r)[i] == r[i].key && KeysOf(r)[j] == r[j].key;
    }
  }

  /** A step adds `w` to the row for `k` and changes no other row's count. */
  lemma {:induction false} AccumulateCount<K>(rows: seq<Bucket<K>>, k: K, w: nat, i: nat)
    requires UniqueKeys(rows)
    requires i < |Accumulate(rows, k, w)|
    ensures var r := Accumulate(rows, k, w);
            r[i].count == (if i < |rows| then rows[i].count else 0) + (if r[i].key == k then w else 0)
    ensures i < |rows| ==> Accumulate(rows, k, w)[i].key == rows[i].key
  {
  }

  lemma {:induction false} TotalUpdate<K>(rows: seq<Bucket<K>>, i: nat, w: nat)
    requires i < |rows|
    ensures Total(rows[i := rows[i].(count := rows[i].count + w)]) == Total(rows) + w
    decreases |rows|
  {
    if i > 0 {
      TotalUpdate(rows[1..], i - 1, w);
      assert rows[i := rows[i].(count := rows[i].count + w)][1..]
          == rows[1..][i - 1 := rows[i].(count := rows[i].count + w)];
    }
  }

  lemma {:induction false} TotalAppend<K>(rows: seq<Bucket<K>>, b: Bucket<K>)
    ensures Total(rows + [b]) == Total(rows) + b.count
    decreases |rows|
  {
    if rows != [] {
      TotalAppend(rows[1..], b);
      assert (rows + [b])[1..] == rows[1..] + [b];
    }
  }

  lemma {:induction false} AccumulateTotal<K>(rows: seq<Bucket<K>>, k: K, w: nat)
    ensures Total(Accumulate(rows, k, w)) == Total(rows) + w
  {
    var i := FindKey(rows, k);
    if i < |rows| {
      TotalUpdate(rows, i, w);
    } else {
      TotalAppend(rows, Bucket(k, w));
    }
  }

  // ---------------------------------------------------------------------------
  // A whole pass

  /** The row keys of a pass are the distinct keys of the input, in order of first appearance. */
  lemma {:induction false} CountsKeys<K>(keys: seq<K>)
    ensures UniqueKeys(Counts(keys))
    ensures forall k :: k in keys <==> k in KeysOf(Counts(keys))
    ensures forall i, j :: 0 <= i < j < |Counts(keys)| ==>
              FirstIndex(keys, Counts(keys)[i].key) < FirstIndex(keys, Counts(keys)[j].key)
    decreases |keys|
  {
    if keys != [] {
      var n := |keys| - 1;
      var front, k := keys[..n], keys[n];
      assert keys == front + [k];
      var old_ := Counts(front);
      CountsKeys(front);
      AccumulateUnique(old_, k, 1);
      AccumulateKeys(old_, k, 1);
      var rows := Counts(keys);
      assert rows == Accumulate(old_, k, 1);
      forall x | x in front ensures FirstIndex(keys, x) == FirstIndex(front, x) {
        FirstIndexPrefix(front, [k], x);
      }
      forall i, j | 0 <= i < j < |rows|
        ensures FirstIndex(keys, rows[i].key) < FirstIndex(keys, rows[j].key)
      {
        assert KeysOf(rows)[i] == rows[i].key && KeysOf(rows)[j] == rows[j].key;
        assert rows[i].key in KeysOf(old_) by {
          assert i < |old_|;
          assert KeysOf(old_)[i] == rows[i].key;
        }
        if j < |old_| {
          assert KeysOf(old_)[j] == rows[j].key;
        } else {
          assert rows[j].key == k && k !in front;
          assert FirstIndex(keys, k) == n;
        }
      }
    }
  }

  lemma {:induction false} FirstIndexPrefix<K>(a: seq<K>, b: seq<K>, x: K)
    requires x in a
    ensures FirstIndex(a + b, x) == FirstIndex(a, x)
    decreases |a|
  {
    if a[0] != x {
      assert (a + b)[1..] == a[1..] + b;
      FirstIndexPrefix(a[1..], b, x);
    }
  }

  /** Every row holds the number of input items that carry its key. */
  lemma {:induction false} CountsAreOccurrences<K>(keys: seq<K>)
    ensures forall i :: 0 <= i < |Counts(keys)| ==>
              Counts(keys)[i].count == multiset(keys)[Counts(keys)[i].key]
    decreases |keys|
  {
    if keys != [] {
      var n := |keys| - 1;
      var front, k := keys[..n], keys[n];
      assert keys == front + [k];
      CountsAreOccurrences(front);
      CountsKeys(front);
      var old_ := Counts(front);
      var rows := Counts(keys);
      forall i | 0 <= i < |rows| ensures rows[i].count == multiset(keys)[rows[i].key] {
        AccumulateCount(old_, k, 1, i);
        if i >= |old_| {
          AccumulateKeys(old_, k, 1);
          assert KeysOf(rows)[i] == k;
          assert k !in KeysOf(old_);
          assert multiset(front)[k] == 0;
        }
      }
    }
  }

  /** The counts of a pass add up to the number of items. */
  lemma {:induction false} CountsTotal<K>(keys: seq<K>)
    ensures Total(Counts(keys)) == |keys|
    decreases |keys|
  {
    if keys != [] {
      CountsTotal(keys[..|keys| - 1]);
      AccumulateTotal(Counts(keys[..|keys| - 1]), keys[|keys| - 1], 1);
    }
  }

  // ---------------------------------------------------------------------------
  // Regrouping: adding up the rows of one pass under a coarser key

  /** `keys` with `proj` applied to each, as `keys.map(proj)`. */
  function Project<K, J>(keys: seq<K>, proj: K -> J): (r: seq<J>)
    ensures |r| == |keys|
    ensures forall i :: 0 <= i < |keys| ==> r[i] == proj(keys[i])
  {
    seq(|keys|, i requires 0 <= i < |keys| => proj(keys[i]))
  }

  /**
    The rows of `rows` re-keyed by `proj`, visited from the front: each row
    adds its count to the row for its projected key, pushing that row when it
    is new (a dictionary `total[proj(key)] = (total[proj(key)] ?? 0) + count`
    kept in insertion order).
   */
  function Regroup<K, J(==)>(rows: seq<Bucket<K>>, proj: K -> J): seq<Bucket<J>>
    decreases |rows|
  {
    if rows == [] then []
    else
      var last := rows[|rows| - 1];
      Accumulate(Regroup(rows[..|rows| - 1], proj), proj(last.key), last.count)
  }

  /** Two steps on the same key are one step with the summed weight. */
  lemma {:induction false} AccumulateMerge<K>(acc: seq<Bucket<K>>, a: K, w1: nat, w2: nat)
    ensures Accumulate(Accumulate(acc, a, w1), a, w2) == Accumulate(acc, a, w1 + w2)
  {
    var i := FindKey(acc, a);
    var x := Accumulate(acc, a, w1);
    FindKeyIsFirstMatch(x, a, i);
  }

  /** Adding one to a key that already has a row commutes with any other step. */
  lemma {:induction false} AccumulateCommute<K>(acc: seq<Bucket<K>>, a: K, b: K, w: nat)
    requires FindKey(acc, a) < |acc|
    ensures Accumulate(Accumulate(acc, a, 1), b, w) == Accumulate(Accumulate(acc, b, w), a, 1)
  {
    if a == b {
      AccumulateMerge(acc, a, 1, w);
      AccumulateMerge(acc, a, w, 1);
    } else {
      AccumulateOther(acc, a, b, w, FindKey(acc, a));
    }
  }

  /** After a step on `k`, a key is found if it was found before or is `k`. */
  lemma {:induction false} AccumulateFinds<K>(rows: seq<Bucket<K>>, k: K, w: nat, x: K)
    requires FindKey(rows, x) < |rows| || x == k
    ensures FindKey(Accumulate(rows, k, w), x) < |Accumulate(rows, k, w)|
  {
    var r := Accumulate(rows, k, w);
    if FindKey(rows, k) < |rows| {
      FindKeyByKeys(r, rows, x);
    } else if FindKey(rows, x) < |rows| {
      FindKeyIsFirstMatch(r, x, FindKey(rows, x));
    } else {
      FindKeyIsFirstMatch(r, k, |rows|);
    }
  }

  lemma {:induction false} AccumulateOther<K>(acc: seq<Bucket<K>>, a: K, b: K, w: nat, ia: nat)
    requires a != b && ia == FindKey(acc, a) && ia < |acc|
    ensures Accumulate(Accumulate(acc, a, 1), b, w) == Accumulate(Accumulate(acc, b, w), a, 1)
  {
    var ib := FindKey(acc, b);
    if ib < |acc| {
      BumpBoth(acc, ia, ib, w);
    } else {
      BumpAppend(acc, ia, b, w);
    }
  }

  /** Rows with the same keys, position by position, are searched alike. */
  lemma {:induction false} FindKeyByKeys<K>(r1: seq<Bucket<K>>, r2: seq<Bucket<K>>, k: K)
    requires |r1| == |r2|
    requires forall i :: 0 <= i < |r1| ==> r1[i].key == r2[i].key
    ensures FindKey(r1, k) == FindKey(r2, k)
  {
    FindKeyIsFirstMatch(r2, k, FindKey(r1, k));
  }

  /** A step on a key that has a row bumps that row. */
  lemma {:induction false} BumpAt<K>(acc: seq<Bucket<K>>, i: nat, w: nat)
    requires i < |acc| && i == FindKey(acc, acc[i].key)
    ensures Accumulate(acc, acc[i].key, w) == acc[i := acc[i].(count := acc[i].count + w)]
  {
  }

  lemma {:induction false} BumpBoth<K>(acc: seq<Bucket<K>>, ia: nat, ib: nat, w: nat)
    requires ia < |acc| && ib < |acc| && acc[ia].key != acc[ib].key
    requires ia == FindKey(acc, acc[ia].key) && ib == FindKey(acc, acc[ib].key)
    ensures Accumulate(Accumulate(acc, acc[ia].key, 1), acc[ib].key, w)
         == Accumulate(Accumulate(acc, acc[ib].key, w), acc[ia].key, 1)
  {
    var ra := acc[ia].(count := acc[ia].count + 1);
    var rb := acc[ib].(count := acc[ib].count + w);
    var x := acc[ia := ra];
    var y := acc[ib := rb];
    BumpAt(acc, ia, 1);
    BumpAt(acc, ib, w);
    FindKeyByKeys(x, acc, acc[ib].key);
    FindKeyByKeys(y, acc, acc[ia].key);
    BumpAt(x, ib, w);
    BumpAt(y, ia, 1);
    assert x[ib := rb] == y[ia := ra];
  }

  lemma {:induction false} BumpAppend<K>(acc: seq<Bucket<K>>, ia: nat, b: K, w: nat)
    requires ia < |acc| && FindKey(acc, b) == |acc|
    requires ia == FindKey(acc, acc[ia].key)
    ensures Accumulate(Accumulate(acc, acc[ia].key, 1), b, w)
         == Accumulate(Accumulate(acc, b, w), acc[ia].key, 1)
  {
    var ra := acc[ia].(count := acc[ia].count + 1);
    var x := acc[ia := ra];
    var y := acc + [Bucket(b, w)];
    BumpAt(acc, ia, 1);
    FindKeyByKeys(x, acc, b);
    FindKeyIsFirstMatch(y, acc[ia].key, ia);
    BumpAt(y, ia, 1);
    assert x + [Bucket(b, w)] == y[ia := ra];
  }

  lemma {:induction false} RegroupHasKey<K, J>(rows: seq<Bucket<K>>, proj: K -> J, i: nat)
    requires i < |rows|
    ensures FindKey(Regroup(rows, proj), proj(rows[i].key)) < |Regroup(rows, proj)|
    decreases |rows|
  {
    var n := |rows| - 1;
    var front := rows[..n];
    RegroupLast(rows, proj);
    if i < n {
      RegroupHasKey(front, proj, i);
    }
    AccumulateFinds(Regroup(front, proj), proj(rows[n].key), rows[n].count, proj(rows[i].key));
  }

  /** Raising the count of one row by one raises its projected total by one. */
  lemma {:induction false} RegroupBump<K, J>(rows: seq<Bucket<K>>, proj: K -> J, i: nat)
    requires i < |rows|
    ensures Regroup(rows[i := rows[i].(count := rows[i].count + 1)], proj)
         == Accumulate(Regroup(rows, proj), proj(rows[i].key), 1)
    decreases |rows|, 1
  {
    if i == |rows| - 1 {
      RegroupBumpLast(rows, proj);
    } else {
      RegroupBumpFront(rows, proj, i);
    }
  }

  lemma {:induction false} RegroupBumpLast<K, J>(rows: seq<Bucket<K>>, proj: K -> J)
    requires rows != []
    ensures var i := |rows| - 1;
            (Regroup(rows[i := rows[i].(count := rows[i].count + 1)], proj)
             == Accumulate(Regroup(rows, proj), proj(rows[i].key), 1))
  {
    var n := |rows| - 1;
    var bumped := rows[n := rows[n].(count := rows[n].count + 1)];
    var g := Regroup(rows[..n], proj);
    RegroupLast(bumped, proj);
    RegroupLast(rows, proj);
    assert bumped[..n] == rows[..n];
    AccumulateMerge(g, proj(rows[n].key), rows[n].count, 1);
  }

  lemma {:induction false} RegroupBumpFront<K, J>(rows: seq<Bucket<K>>, proj: K -> J, i: nat)
    requires i < |rows| - 1
    ensures Regroup(rows[i := rows[i].(count := rows[i].count + 1)], proj)
         == Accumulate(Regroup(rows, proj), proj(rows[i].key), 1)
    decreases |rows|, 0
  {
    var n := |rows| - 1;
    var bumped := rows[i := rows[i].(count := rows[i].count + 1)];
    var front := rows[..n];
    var g := Regroup(front, proj);
    var a := proj(rows[i].key);
    RegroupLast(bumped, proj);
    RegroupLast(rows, proj);
    UpdateThenSlice(rows, i, n, rows[i].(count := rows[i].count + 1));
    RegroupBump(front, proj, i);
    RegroupHasKey(front, proj, i);
    AccumulateCommute(g, a, proj(rows[n].key), rows[n].count);
  }

  /** Updating an entry before the cut and then cutting is cutting and then updating. */
  lemma {:induction false} UpdateThenSlice<T>(s: seq<T>, i: nat, n: nat, v: T)
    requires i < n < |s|
    ensures s[i := v][..n] == s[..n][i := v]
    ensures s[i := v][n] == s[n]
  {
    var left, right := s[i := v][..n], s[..n][i := v];
    assert forall j :: 0 <= j < n ==> left[j] == right[j];
  }

  /** `Regroup` of non-empty rows is one step on the last row's projected key. */
  lemma {:induction false} RegroupLast<K, J>(rows: seq<Bucket<K>>, proj: K -> J)
    requires rows != []
    ensures var last := rows[|rows| - 1];
            Regroup(rows, proj) == Accumulate(Regroup(rows[..|rows| - 1], proj), proj(last.key), last.count)
  {
  }

  /**
    Counting under a key and then adding up under its projection gives the
    same rows, in the same order, as counting the projections directly.
   */
  lemma {:induction false} RegroupCounts<K, J>(keys: seq<K>, proj: K -> J)
    ensures Regroup(Counts(keys), proj) == Counts(Project(keys, proj))
    decreases |keys|
  {
    if keys != [] {
      var front := keys[..|keys| - 1];
      var k := keys[|keys| - 1];
      RegroupCounts(front, proj);
      RegroupStep(Counts(front), k, proj);
      ProjectStep(keys, proj);
    }
  }

  /** Counting the projections of a non-empty sequence ends with one step on the last projection. */
  lemma {:induction false} ProjectStep<K, J>(keys: seq<K>, proj: K -> J)
    requires keys != []
    ensures Counts(Project(keys, proj))
         == Accumulate(Counts(Project(keys[..|keys| - 1], proj)), proj(keys[|keys| - 1]), 1)
  {
    var projected := Project(keys, proj);
    assert projected[..|keys| - 1] == Project(keys[..|keys| - 1], proj);
  }

  /** Regrouping after one counting step is one step on the projected key. */
  lemma {:induction false} RegroupStep<K, J>(c: seq<Bucket<K>>, k: K, proj: K -> J)
    ensures Regroup(Accumulate(c, k, 1), proj) == Accumulate(Regroup(c, proj), proj(k), 1)
  {
    var i := FindKey(c, k);
    if i < |c| {
      RegroupBump(c, proj, i);
    } else {
      assert (c + [Bucket(k, 1)])[..|c|] == c;
    }
  }

  /** Every row of a pass over projected items is keyed by the projection of one of the items. */
  lemma {:induction false} ProjectedKeysOccur<K, J>(items: seq<K>, proj: K -> J)
    ensures var rows := Counts(Project(items, proj));
            forall i :: 0 <= i < |rows| ==> exists j :: 0 <= j < |items| && rows[i].key == proj(items[j])
  {
    var keys := Project(items, proj);
    var rows := Counts(keys);
    CountsKeys(keys);
    forall i | 0 <= i < |rows| ensures exists j :: 0 <= j < |items| && rows[i].key == proj(items[j]) {
      assert KeysOf(rows)[i] == rows[i].key;
      assert rows[i].key in KeysOf(rows);
      var j :| 0 <= j < |keys| && keys[j] == rows[i].key;
    }
  }

  // ---------------------------------------------------------------------------
  // Distinct keys

  ghost predicate Distinct<K>(s: seq<K>) {
    forall i, j :: 0 <= i < j < |s| ==> s[i] != s[j]
  }

  /** A sequence has as many different elements as entries exactly when no entry repeats. */
  lemma {:induction false} DistinctSetSize<K>(s: seq<K>)
    ensures |set x | x in s| <= |s|
    ensures |set x | x in s| == |s| <==> Distinct(s)
    decreases |s|
  {
    if s != [] {
      var n := |s| - 1;
      var front := s[..n];
      DistinctSetSize(front);
      assert s == front + [s[n]];
      assert (set x | x in s) == (set x | x in front) + {s[n]};
      if s[n] in front {
        assert (set x | x in s) == (set x | x in front);
        var k :| 0 <= k < n && front[k] == s[n];
        assert s[k] == s[n];
      } else if !Distinct(front) {
        var i, j :| 0 <= i < j < n && front[i] == front[j];
        assert s[i] == s[j];
      }
    }
  }

  /** A pass has one row per distinct key of its input. */
  lemma {:induction false} DistinctCount<K>(keys: seq<K>)
    ensures |Counts(keys)| == |set k | k in keys|
  {
    var ks := KeysOf(Counts(keys));
    CountsKeys(keys);
    DistinctSetSize(ks);
    assert Distinct(ks) by {
      forall i, j | 0 <= i < j < |ks| ensures ks[i] != ks[j] {
        assert Counts(keys)[i].key != Counts(keys)[j].key;
      }
    }
    assert (set k | k in ks) == (set k | k in keys);
  }
}
