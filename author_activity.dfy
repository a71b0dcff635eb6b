/**
  The author-activity chart: commits per author per UTC day, month or year.
  Every commit is keyed by the start of its interval and its author's name
  (the email plays no part); a find-or-push loop counts the keys; a second
  loop adds up each author's commits in a dictionary; the dictionary's
  entries are sorted by total, highest first, and cut to `maxEntries`; the
  rows of the authors that survive are drawn, in their original order.
 */
module AuthorActivity {
  import opened Text
  import opened Tally
  import opened StableSort
  import opened GitLog
  import opened CivilTime

  /** The interval an `interval` argument names, if it names one. */
  function ParseInterval(s: string): Result<Interval> {
    if s == "day" then Ok(Day)
    else if s == "month" then Ok(Month)
    else if s == "year" then Ok(Year)
    else Err(IntervalNotAllowed)
  }

  function IntervalName(iv: Interval): string {
    match iv
    case Day => "day"
    case Month => "month"
    case Year => "year"
  }

  /** Exactly the three interval names are accepted, each for its own interval. */
  lemma ParseIntervalInverse(s: string, iv: Interval)
    ensures ParseInterval(IntervalName(iv)) == Ok(iv)
    ensures ParseInterval(s).Ok? <==> s in AllowedIntervals
    ensures ParseInterval(s).Ok? ==> IntervalName(ParseInterval(s).value) == s
  {
  }

  /** A row's key: the truncated instant (seconds) and the author's name. */
  datatype ActivityKey = ActivityKey(date: int, author: string)

  function KeyOf(iv: Interval, c: Commit): ActivityKey {
    ActivityKey(Truncate(iv, c.timestamp), c.name)
  }

  function ActivityKeys(iv: Interval, log: seq<Commit>): seq<ActivityKey> {
    Project(log, c => KeyOf(iv, c))
  }

  function AuthorOfKey(k: ActivityKey): string {
    k.author
  }

  function Names(log: seq<Commit>): seq<string> {
    Project(log, (c: Commit) => c.name)
  }

  /**
    Two commits share a row exactly when they have the same author name and
    `Date.UTC` puts the starts of their periods on the same date: outside
    years 0 to 99, when they fall in the same UTC period; otherwise (29
    February of year 0 by day aside) when they do so with years 0 to 99 read
    as 1900 to 1999.
   */
  lemma {:induction false} SameRow(iv: Interval, c1: Commit, c2: Commit)
    ensures KeyOf(iv, c1) == KeyOf(iv, c2) <==>
              c1.name == c2.name &&
              KeyDate(PeriodStart(iv, UtcDate(c1.timestamp))) == KeyDate(PeriodStart(iv, UtcDate(c2.timestamp)))
    ensures !(iv == Day && (UtcDate(c1.timestamp) == Date(0, 1, 29) || UtcDate(c2.timestamp) == Date(0, 1, 29))) ==>
              (KeyOf(iv, c1) == KeyOf(iv, c2) <==>
               c1.name == c2.name &&
               SamePeriod(iv, WithFullYear(UtcDate(c1.timestamp)), WithFullYear(UtcDate(c2.timestamp))))
    ensures !(0 <= UtcDate(c1.timestamp).year <= 99) && !(0 <= UtcDate(c2.timestamp).year <= 99) ==>
              (KeyOf(iv, c1) == KeyOf(iv, c2) <==>
               c1.name == c2.name && SamePeriod(iv, UtcDate(c1.timestamp), UtcDate(c2.timestamp)))
  {
    TruncateSamePeriod(iv, c1.timestamp, c2.timestamp);
  }

  /**
    The dictionary loop: `authorTotals[a.Author] = (authorTotals[a.Author] ?? 0) + a.Commits`
    for every row, the dictionary kept as its entries in insertion order.
   */
  method SumByAuthor(rows: seq<Bucket<ActivityKey>>) returns (totals: seq<Bucket<string>>)
    ensures totals == Regroup(rows, AuthorOfKey)
  {
    totals := [];
    for n := 0 to |rows|
      invariant totals == Regroup(rows[..n], AuthorOfKey)
    {
      var a := rows[n].key.author;
      var i := 0;
      while i < |totals| && totals[i].key != a
        invariant 0 <= i <= |totals|
        invariant forall j :: 0 <= j < i ==> totals[j].key != a
      {
        i := i + 1;
      }
      FindKeyIsFirstMatch(totals, a, i);
      if i < |totals| {
        totals := totals[i := totals[i].(count := totals[i].count + rows[n].count)];
      } else {
        totals := totals + [Bucket(a, rows[n].count)];
      }
      assert rows[..n + 1][..n] == rows[..n];
    }
    assert rows[..|rows|] == rows;
  }

  /** The comparator `(a, b) => b[1] - a[1]` is negative when `a` has the larger total. */
  predicate MoreCommits(a: Bucket<string>, b: Bucket<string>) {
    a.count > b.count
  }

  lemma MoreCommitsIsStrictWeakOrder()
    ensures StrictWeakOrder(MoreCommits)
  {
  }

  /** The end index `slice(0, end)` uses: a negative `end` counts from the back. */
  function SliceEnd(len: nat, end: int): (e: nat)
    ensures e <= len
  {
    if end < 0 then (if len + end < 0 then 0 else len + end)
    else if end < len then end
    else len
  }

  /** `Object.entries(totals).sort(...).slice(0, maxEntries).map(([name]) => name)`. */
  function TopAuthors(totals: seq<Bucket<string>>, maxEntries: int): seq<string> {
    var sorted := SortBy(MoreCommits, totals);
    SortByPermutes(MoreCommits, totals);
    KeysOf(sorted[..SliceEnd(|sorted|, maxEntries)])
  }

  /** `rows.filter((a) => top.includes(a.Author))`. */
  function FilterByAuthor(rows: seq<Bucket<ActivityKey>>, top: seq<string>): seq<Bucket<ActivityKey>>
    decreases |rows|
  {
    if rows == [] then []
    else
      var last := rows[|rows| - 1];
      FilterByAuthor(rows[..|rows| - 1], top) + (if last.key.author in top then [last] else [])
  }

  /** The plot's input: titles, the y-axis label and the rows drawn. */
  datatype ActivityChart = ActivityChart(title: string, subtitle: string, axisLabel: string,
                                         rows: seq<Bucket<ActivityKey>>)

  /** A number inside a template literal, sign included. */
  function IntToString(i: int): string {
    if i < 0 then "-" + NatToString(-i) else NatToString(i)
  }

  function ChartOf(repo: string, maxEntries: int, interval: string,
                   rows: seq<Bucket<ActivityKey>>): ActivityChart
  {
    ActivityChart("Commits per Author Over Time (top " + IntToString(maxEntries) + ")",
                  "Repository: " + repo, "Commits per " + interval, rows)
  }

  /** What the command produces from the log of the repository. */
  function ActivityRows(iv: Interval, log: seq<Commit>, maxEntries: int): seq<Bucket<ActivityKey>> {
    var rows := Counts(ActivityKeys(iv, log));
    FilterByAuthor(rows, TopAuthors(Regroup(rows, AuthorOfKey), maxEntries))
  }

  /**
    What the command produces: the failure it throws, or the chart it draws.
    `maxEntries` is the value `parseInt(max, 10)` gives; `fetch` stands for
    `getRepoLog`.
   */
  function AuthorActivity(repo: string, output: string, maxEntries: int, interval: string,
                          fetch: string -> Result<seq<Commit>>): Result<ActivityChart>
  {
    if !HasAllowedFormat(output) then Err(OutputFormatNotAllowed)
    else
      match ParseInterval(interval)
      case Err(f) => Err(f)
      case Ok(iv) =>
        match fetch(repo)
        case Err(f) => Err(f)
        case Ok(log) => Ok(ChartOf(repo, maxEntries, interval, ActivityRows(iv, log, maxEntries)))
  }

  /** `authorActivity(repo, output, max, interval)`, step by step. */
  method RunAuthorActivity(repo: string, output: string, maxEntries: int, interval: string,
                           fetch: string -> Result<seq<Commit>>) returns (r: Result<ActivityChart>)
    ensures r == AuthorActivity(repo, output, maxEntries, interval, fetch)
  {
    if !HasAllowedFormat(output) {
      return Err(OutputFormatNotAllowed);
    }
    var iv := ParseInterval(interval);
    if iv.Err? {
      return Err(iv.failure);
    }
    var log := fetch(repo);
    if log.Err? {
      return Err(log.failure);
    }
    var authorCommits := TallyKeys(ActivityKeys(iv.value, log.value));
    var authorTotals := SumByAuthor(authorCommits);
    var topAuthors := TopAuthors(authorTotals, maxEntries);
    var filtered := FilterByAuthor(authorCommits, topAuthors);
    r := Ok(ChartOf(repo, maxEntries, interval, filtered));
  }

  // ---------------------------------------------------------------------------
  // What the command promises

  /**
    The format check comes first and the interval check second, both before
    the log is fetched.
   */
  lemma ValidationOrder(repo: string, output: string, maxEntries: int, interval: string,
                        fetch: string -> Result<seq<Commit>>, fetch': string -> Result<seq<Commit>>)
    ensures !HasAllowedFormat(output) ==>
              AuthorActivity(repo, output, maxEntries, interval, fetch) == Err(OutputFormatNotAllowed)
    ensures HasAllowedFormat(output) && interval !in AllowedIntervals ==>
              AuthorActivity(repo, output, maxEntries, interval, fetch) == Err(IntervalNotAllowed)
    ensures !HasAllowedFormat(output) || interval !in AllowedIntervals ==>
              AuthorActivity(repo, output, maxEntries, interval, fetch)
              == AuthorActivity(repo, output, maxEntries, interval, fetch')
  {
  }

  /**
    The rows of the counting loop: one per (period start, author name), none
    twice, each holding the number of commits with that key, all of them
    together holding every commit.
   */
  lemma {:induction false} CountedRows(iv: Interval, log: seq<Commit>)
    ensures var rows := Counts(ActivityKeys(iv, log));
            && UniqueKeys(rows)
            && Total(rows) == |log|
            && (forall i :: 0 <= i < |rows| ==> rows[i].count == multiset(ActivityKeys(iv, log))[rows[i].key])
            && (forall i :: 0 <= i < |rows| ==>
                  exists j :: 0 <= j < |log| && rows[i].key == KeyOf(iv, log[j]))
  {
    var keys := ActivityKeys(iv, log);
    var rows := Counts(keys);
    CountsKeys(keys);
    CountsTotal(keys);
    CountsAreOccurrences(keys);
    ProjectedKeysOccur(log, c => KeyOf(iv, c));
  }

  /**
    The totals dictionary has one entry per author name, in order of the
    name's first commit, holding the number of commits by that name.
   */
  lemma {:induction false} AuthorTotals(iv: Interval, log: seq<Commit>)
    ensures Regroup(Counts(ActivityKeys(iv, log)), AuthorOfKey) == Counts(Names(log))
    ensures var totals := Counts(Names(log));
            && UniqueKeys(totals)
            && (forall a :: a in KeysOf(totals) <==> a in Names(log))
            && (forall i :: 0 <= i < |totals| ==> totals[i].count == multiset(Names(log))[totals[i].key])
  {
    RegroupCounts(ActivityKeys(iv, log), AuthorOfKey);
    assert Project(ActivityKeys(iv, log), AuthorOfKey) == Names(log);
    CountsKeys(Names(log));
    CountsAreOccurrences(Names(log));
  }

  /**
    The top authors: `slice(0, maxEntries)` of the entries sorted by total,
    highest first (at most `maxEntries` of them for a non-negative value);
    every author left out has a total no larger than any author kept.
   */
  lemma {:induction false} TopAuthorsSpec(totals: seq<Bucket<string>>, maxEntries: int)
    ensures var top := TopAuthors(totals, maxEntries);
            var sorted := SortBy(MoreCommits, totals);
            && |top| == SliceEnd(|totals|, maxEntries)
            && (maxEntries >= 0 ==> |top| <= maxEntries)
            && multiset(sorted) == multiset(totals)
            && (forall i :: 0 <= i < |top| ==> top[i] == sorted[i].key)
            && (forall i, j :: 0 <= i < j < |sorted| ==> sorted[i].count >= sorted[j].count)
            && (forall i, j :: 0 <= i < |top| <= j < |sorted| ==> sorted[j].count <= sorted[i].count)
  {
    var sorted := SortBy(MoreCommits, totals);
    SortByPermutes(MoreCommits, totals);
    MoreCommitsIsStrictWeakOrder();
    SortBySorted(MoreCommits, totals);
    var top := TopAuthors(totals, maxEntries);
    assert forall i :: 0 <= i < |top| ==> top[i] == sorted[i].key;
  }

  /** Authors with equal totals keep their dictionary order: the sort is stable. */
  lemma {:induction false} TopAuthorsStable(totals: seq<Bucket<string>>, y: Bucket<string>)
    ensures TiedWith(MoreCommits, SortBy(MoreCommits, totals), y) == TiedWith(MoreCommits, totals, y)
  {
    MoreCommitsIsStrictWeakOrder();
    SortByStable(MoreCommits, totals, y);
  }

  /**
    The filter keeps exactly the rows whose author is among the top authors,
    and keeps their relative order: filtering a concatenation filters each
    part.
   */
  lemma {:induction false} FilterByAuthorSpec(a: seq<Bucket<ActivityKey>>, b: seq<Bucket<ActivityKey>>,
                                              top: seq<string>)
    ensures forall x :: x in FilterByAuthor(a, top) <==> x in a && x.key.author in top
    ensures FilterByAuthor(a + b, top) == FilterByAuthor(a, top) + FilterByAuthor(b, top)
    decreases |b|
  {
    FilterMembers(a, top);
    if b == [] {
      assert a + b == a;
    } else {
      var n := |b| - 1;
      FilterByAuthorSpec(a, b[..n], top);
      assert (a + b)[..|a + b| - 1] == a + b[..n];
    }
  }

  lemma {:induction false} FilterMembers(a: seq<Bucket<ActivityKey>>, top: seq<string>)
    ensures forall x :: x in FilterByAuthor(a, top) <==> x in a && x.key.author in top
    decreases |a|
  {
    if a != [] {
      var n := |a| - 1;
      FilterMembers(a[..n], top);
      assert a == a[..n] + [a[n]];
    }
  }
}
