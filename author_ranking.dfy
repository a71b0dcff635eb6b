/**
  The per-author counting shared by the author-commits commands: one row per
  exact (name, email) pair, counted by the find-or-push loop; the two
  repository-level commands then sort the rows (more commits first, ties by
  lower-cased name) and keep the first 50 with `splice(50)`.
 */
module AuthorRanking {
  import opened Text
  import opened Tally
  import opened StableSort
  import opened GitLog

  /** The identity a row is found by: both the name and the email must match. */
  datatype Author = Author(name: string, email: string)

  function AuthorOf(c: Commit): Author {
    Author(c.name, c.email)
  }

  /** `results.map((entry) => entry.commit.author)`, reduced to the pair. */
  function Authors(log: seq<Commit>): seq<Author> {
    Project(log, AuthorOf)
  }

  /** The chart.js bar chart: one label and one value per bar. */
  datatype BarChart = BarChart(title: string, subtitle: string, labels: seq<string>, data: seq<nat>)

  /** How many rows `splice` leaves. */
  const TopCount: nat := 50

  /** What `a.splice(n)` leaves in `a`: its first `n` elements, or all of them. */
  function Splice<T>(s: seq<T>, n: nat): (r: seq<T>)
    ensures |r| == if |s| < n then |s| else n
    ensures r == s[..|r|]
  {
    if |s| <= n then s else s[..n]
  }

  /**
    The sort comparator returns a negative number for `(a, b)`: `a` has more
    commits, or as many and a smaller lower-cased name.
   */
  predicate Ahead(a: Bucket<Author>, b: Bucket<Author>) {
    a.count > b.count || (a.count == b.count && Less(Lower(a.key.name), Lower(b.key.name)))
  }

  /** The comparator is consistent, so the sort is well defined. */
  lemma AheadIsStrictWeakOrder()
    ensures StrictWeakOrder(Ahead)
  {
    forall a: Bucket<Author> ensures !Ahead(a, a) {
      LessIrreflexive(Lower(a.key.name));
    }
    forall a: Bucket<Author>, b: Bucket<Author>, c: Bucket<Author> | Ahead(a, b) && Ahead(b, c)
      ensures Ahead(a, c)
    {
      if a.count == b.count && b.count == c.count {
        LessTransitive(Lower(a.key.name), Lower(b.key.name), Lower(c.key.name));
      }
    }
    forall a: Bucket<Author>, b: Bucket<Author>, c: Bucket<Author> | !Ahead(a, b) && !Ahead(b, c)
      ensures !Ahead(a, c)
    {
      var la, lb, lc := Lower(a.key.name), Lower(b.key.name), Lower(c.key.name);
      if a.count == b.count && b.count == c.count && Less(la, lc) {
        if la != lb {
          LessTotal(la, lb);
          LessTransitive(lb, la, lc);
        }
        assert false;
      }
    }
  }

  /** The rows left after the count, the sort and `splice(50)`. */
  function Ranking(log: seq<Commit>): seq<Bucket<Author>> {
    Splice(SortBy(Ahead, Counts(Authors(log))), TopCount)
  }

  /**
    The count, the in-place sort and the splice, as the commands run them:
    the find-or-push loop, the rows copied to an array, `sort`, `splice(50)`.
   */
  method RankAuthors(log: seq<Commit>) returns (kept: seq<Bucket<Author>>)
    ensures kept == Ranking(log)
  {
    var rows := TallyKeys(Authors(log));
    var a := new Bucket<Author>[|rows|](i requires 0 <= i < |rows| => rows[i]);
    assert a[..] == rows;
    SortInPlace(a, Ahead);
    kept := Splice(a[..], TopCount);
  }

  // ---------------------------------------------------------------------------
  // What the ranking promises

  /** A sort only reorders rows: every key stays unique. */
  lemma {:induction false} PermutationKeepsUnique<K>(a: seq<Bucket<K>>, b: seq<Bucket<K>>)
    requires multiset(a) == multiset(b) && UniqueKeys(a)
    ensures UniqueKeys(b)
  {
    forall i, j | 0 <= i < j < |b| ensures b[i].key != b[j].key {
      if b[i].key == b[j].key {
        assert b[i] in multiset(a) && b[j] in multiset(a);
        var p :| 0 <= p < |a| && a[p] == b[i];
        var q :| 0 <= q < |a| && a[q] == b[j];
        UniqueOnce(a, p);
        TwiceInSeq(b, i, j);
        assert false;
      }
    }
  }

  lemma {:induction false} TwiceInSeq<T>(b: seq<T>, i: nat, j: nat)
    requires i < j < |b| && b[i] == b[j]
    ensures multiset(b)[b[i]] >= 2
  {
    assert b == b[..i] + [b[i]] + b[i + 1..j] + [b[j]] + b[j + 1..];
  }

  lemma {:induction false} UniqueOnce<K>(a: seq<Bucket<K>>, p: nat)
    requires UniqueKeys(a) && p < |a|
    ensures multiset(a)[a[p]] == 1
  {
    var front, back := a[..p], a[p + 1..];
    assert a == front + [a[p]] + back;
    assert forall k :: 0 <= k < |front| ==> front[k].key != a[p].key;
    assert forall k :: 0 <= k < |back| ==> back[k] == a[p + 1 + k];
    assert forall k :: 0 <= k < |back| ==> back[k].key != a[p].key;
  }

  /** After `splice(50)`: at most 50 rows, the first ones of the sorted array. */
  lemma {:induction false} RankingIsPrefix(log: seq<Commit>)
    ensures var r := Ranking(log);
            var rows := Counts(Authors(log));
            && |r| == (if |rows| < TopCount then |rows| else TopCount)
            && r == SortBy(Ahead, rows)[..|r|]
  {
    SortByPermutes(Ahead, Counts(Authors(log)));
  }

  /** Each kept row is one (name, email) pair holding exactly the number of commits with that pair. */
  lemma {:induction false} RankingCounts(log: seq<Commit>)
    ensures var r := Ranking(log);
            && UniqueKeys(r)
            && (forall i :: 0 <= i < |r| ==> r[i].count == multiset(Authors(log))[r[i].key])
  {
    var keys := Authors(log);
    var rows := Counts(keys);
    var sorted := SortBy(Ahead, rows);
    var r := Ranking(log);
    SortByPermutes(Ahead, rows);
    CountsKeys(keys);
    CountsAreOccurrences(keys);
    PermutationKeepsUnique(rows, sorted);
    forall i | 0 <= i < |r| ensures r[i].count == multiset(keys)[r[i].key] {
      assert r[i] == sorted[i];
      assert sorted[i] in multiset(rows);
    }
  }

  /** Kept rows run from most commits to fewest, equal counts by lower-cased name. */
  lemma {:induction false} RankingOrder(log: seq<Commit>)
    ensures var r := Ranking(log);
            forall i, j :: 0 <= i < j < |r| ==>
              r[i].count >= r[j].count &&
              (r[i].count == r[j].count ==> !Less(Lower(r[j].key.name), Lower(r[i].key.name)))
  {
    var sorted := SortBy(Ahead, Counts(Authors(log)));
    AheadIsStrictWeakOrder();
    SortBySorted(Ahead, Counts(Authors(log)));
    var r := Ranking(log);
    forall i, j | 0 <= i < j < |r| ensures !Ahead(r[j], r[i]) {
      assert r[i] == sorted[i] && r[j] == sorted[j];
    }
  }

  /** The kept rows are the top ones: no author left out has more commits than any author kept. */
  lemma {:induction false} RankingIsTop(log: seq<Commit>)
    ensures var r := Ranking(log);
            forall a, i :: a in Authors(log) && a !in KeysOf(r) && 0 <= i < |r| ==>
              multiset(Authors(log))[a] <= r[i].count
  {
    var keys := Authors(log);
    var rows := Counts(keys);
    var sorted := SortBy(Ahead, rows);
    var r := Ranking(log);
    SortByPermutes(Ahead, rows);
    AheadIsStrictWeakOrder();
    SortBySorted(Ahead, rows);
    CountsKeys(keys);
    CountsAreOccurrences(keys);
    forall a, i | a in keys && a !in KeysOf(r) && 0 <= i < |r|
      ensures multiset(keys)[a] <= r[i].count
    {
      var p :| 0 <= p < |rows| && KeysOf(rows)[p] == a;
      assert rows[p] in multiset(sorted);
      var q :| 0 <= q < |sorted| && sorted[q] == rows[p];
      assert q >= |r| by {
        assert forall k :: 0 <= k < |r| ==> KeysOf(r)[k] == sorted[k].key;
      }
      assert !Ahead(sorted[q], sorted[i]);
    }
  }
}
