/**
  The commit-activity chart: commits per day for several repositories on one
  plot. The output extension is checked, then the list of repositories must
  not repeat itself; every log is fetched; each repository's commits are
  counted per day by a find-or-push loop, every row labelled with the
  repository's pretty name; the per-repository lists are concatenated in
  input order; the subtitle joins the repositories with ", ".
 */
module CommitActivity {
  import opened Text
  import opened Tally
  import opened GitLog
  import opened CivilTime

  /**
    `new Date(y, m, d).getTime()` in seconds, for the UTC year, month and day
    of `t`: local midnight of that calendar date, the year read as
    `MakeFullYear` reads it (0 to 99 as 1900 to 1999), in a time zone whose
    distance from UTC is `utcOffset` seconds (local time = UTC + offset).
   */
  function DayKey(t: int, utcOffset: int): int {
    var d := UtcDate(t);
    DateUtc(d.year, d.month, d.day) - utcOffset
  }

  /**
    Two commits share a day row exactly when the constructor puts their UTC
    dates on the same day: outside years 0 to 99, when their UTC dates are
    equal; otherwise (29 February of year 0 aside) when they are equal with
    years 0 to 99 read as 1900 to 1999.
   */
  lemma {:induction false} DayKeySame(t1: int, t2: int, utcOffset: int)
    ensures DayKey(t1, utcOffset) == DayKey(t2, utcOffset) <==> KeyDate(UtcDate(t1)) == KeyDate(UtcDate(t2))
    ensures UtcDate(t1) != Date(0, 1, 29) && UtcDate(t2) != Date(0, 1, 29) ==>
              (DayKey(t1, utcOffset) == DayKey(t2, utcOffset) <==>
               WithFullYear(UtcDate(t1)) == WithFullYear(UtcDate(t2)))
    ensures !(0 <= UtcDate(t1).year <= 99) && !(0 <= UtcDate(t2).year <= 99) ==>
              (DayKey(t1, utcOffset) == DayKey(t2, utcOffset) <==> UtcDate(t1) == UtcDate(t2))
  {
    assert DayKey(t1, utcOffset) == Truncate(Day, t1) - utcOffset;
    assert DayKey(t2, utcOffset) == Truncate(Day, t2) - utcOffset;
    TruncateSamePeriod(Day, t1, t2);
  }

  function DayKeys(log: seq<Commit>, utcOffset: int): (days: seq<int>)
    ensures |days| == |log|
    ensures forall i :: 0 <= i < |log| ==> days[i] == DayKey(log[i].timestamp, utcOffset)
  {
    Project(log, (c: Commit) => DayKey(c.timestamp, utcOffset))
  }

  /** One point of the plot: a day, the repository's label and its commits on that day. */
  datatype RepoRow = RepoRow(date: int, repo: string, count: nat)

  /** `prettyRepo || repos[index]`: the pretty name, or the input string when it is empty. */
  function RepoLabel(repo: string, pretty: string -> string): string {
    if pretty(repo) == "" then repo else pretty(repo)
  }

  /** The day rows of one log, each carrying `repoLabel`. */
  function Labelled(days: seq<Bucket<int>>, repoLabel: string): (rows: seq<RepoRow>)
    ensures |rows| == |days|
    ensures forall i :: 0 <= i < |days| ==>
              rows[i].date == days[i].key && rows[i].count == days[i].count && rows[i].repo == repoLabel
  {
    seq(|days|, i requires 0 <= i < |days| => RepoRow(days[i].key, repoLabel, days[i].count))
  }

  /** The rows one repository contributes. */
  function RepoRows(repo: string, log: seq<Commit>, pretty: string -> string, utcOffset: int): seq<RepoRow> {
    Labelled(Counts(DayKeys(log, utcOffset)), RepoLabel(repo, pretty))
  }

  /**
    The loop for one repository: find the row of the commit's day and
    increment it, or push a new row with count 1 and the repository's label.
   */
  method CountRepo(repo: string, log: seq<Commit>, pretty: string -> string, utcOffset: int)
    returns (repoCommits: seq<RepoRow>)
    ensures repoCommits == RepoRows(repo, log, pretty, utcOffset)
  {
    var repoLabel := RepoLabel(repo, pretty);
    ghost var keys := DayKeys(log, utcOffset);
    repoCommits := [];
    for n := 0 to |log|
      invariant repoCommits == Labelled(Counts(keys[..n]), repoLabel)
    {
      var date := DayKey(log[n].timestamp, utcOffset);
      repoCommits := CountCommit(repoCommits, date, repoLabel, Counts(keys[..n]));
      PrefixStep(keys, n);
    }
    assert keys[..|log|] == keys;
  }

  lemma {:induction false} PrefixStep<T>(s: seq<T>, n: nat)
    requires n < |s|
    ensures s[..n + 1] == s[..n] + [s[n]]
  {
  }

  /** The body of the loop for one commit on day `date`. */
  method CountCommit(repoCommits: seq<RepoRow>, date: int, repoLabel: string, ghost days: seq<Bucket<int>>)
    returns (next: seq<RepoRow>)
    requires repoCommits == Labelled(days, repoLabel)
    ensures next == Labelled(Accumulate(days, date, 1), repoLabel)
  {
    var i := FindDate(repoCommits, date);
    FindKeyIsFirstMatch(days, date, i);
    LabelledStep(days, date, repoLabel);
    if i < |repoCommits| {
      next := repoCommits[i := repoCommits[i].(count := repoCommits[i].count + 1)];
    } else {
      next := repoCommits + [RepoRow(date, repoLabel, 1)];
    }
  }

  /** `repoCommits.find((a) => a.Date.getTime() === date.getTime())`, as an index: the first match or the end. */
  method FindDate(rows: seq<RepoRow>, date: int) returns (i: nat)
    ensures i <= |rows|
    ensures forall j :: 0 <= j < i ==> rows[j].date != date
    ensures i < |rows| ==> rows[i].date == date
  {
    i := 0;
    while i < |rows| && rows[i].date != date
      invariant i <= |rows|
      invariant forall j :: 0 <= j < i ==> rows[j].date != date
    {
      i := i + 1;
    }
  }

  /** One step of the count, seen on the labelled rows. */
  lemma {:induction false} LabelledStep(days: seq<Bucket<int>>, date: int, repoLabel: string)
    ensures var rows := Labelled(days, repoLabel);
            var i := FindKey(days, date);
            Labelled(Accumulate(days, date, 1), repoLabel)
            == if i < |rows| then rows[i := rows[i].(count := rows[i].count + 1)]
               else rows + [RepoRow(date, repoLabel, 1)]
  {
  }

  /** `lists.flat()`: the lists one after the other. */
  function Flatten<T>(lists: seq<seq<T>>): seq<T>
    decreases |lists|
  {
    if lists == [] then [] else Flatten(lists[..|lists| - 1]) + lists[|lists| - 1]
  }

  /** The per-repository rows of every repository, in input order. */
  function AllRows(repos: seq<string>, logs: seq<seq<Commit>>, pretty: string -> string, utcOffset: int):
    seq<seq<RepoRow>>
    requires |logs| == |repos|
  {
    seq(|repos|, i requires 0 <= i < |repos| => RepoRows(repos[i], logs[i], pretty, utcOffset))
  }

  /** `new Set(repos).size !== repos.length`. */
  predicate HasDuplicates(repos: seq<string>) {
    |set r | r in repos| != |repos|
  }

  /** The set-size check fails exactly when some repository appears twice. */
  lemma {:induction false} HasDuplicatesIff(repos: seq<string>)
    ensures HasDuplicates(repos) <==> exists i, j :: 0 <= i < j < |repos| && repos[i] == repos[j]
  {
    DistinctSetSize(repos);
  }

  /**
    `Promise.all(repos.map(getRepoLog))`: every log, or a failure; here the
    failure of the first repository in input order that fails.
   */
  function FetchAll(repos: seq<string>, fetch: string -> Result<seq<Commit>>): (r: Result<seq<seq<Commit>>>)
    ensures r.Ok? ==> |r.value| == |repos| && forall i :: 0 <= i < |repos| ==> fetch(repos[i]) == Ok(r.value[i])
    ensures r.Err? <==> exists i :: 0 <= i < |repos| && fetch(repos[i]).Err?
    decreases |repos|
  {
    if repos == [] then Ok([])
    else
      match FetchAll(repos[..|repos| - 1], fetch)
      case Err(f) => Err(f)
      case Ok(logs) =>
        match fetch(repos[|repos| - 1])
        case Err(f) => Err(f)
        case Ok(log) => Ok(logs + [log])
  }

  /** The subtitle: "Repository" or "Repositories", then the repositories joined by `reduce`. */
  function Subtitle(repos: seq<string>): string
    requires |repos| > 0
  {
    (if |repos| == 1 then "Repository" else "Repositories") + ": " + ReduceJoin(repos)
  }

  /** The plot's input: the subtitle and the concatenated rows. */
  datatype ActivityChart = ActivityChart(title: string, subtitle: string, rows: seq<RepoRow>)

  /**
    What the command produces: the failure it throws, or the chart it draws.
    `fetch` stands for `getRepoLog`, `pretty` for `prettyURL`; `utcOffset` is
    the host time zone's distance from UTC.
   */
  function CommitActivity(repos: seq<string>, output: string, fetch: string -> Result<seq<Commit>>,
                          pretty: string -> string, utcOffset: int): Result<ActivityChart>
  {
    if !HasAllowedFormat(output) then Err(OutputFormatNotAllowed)
    else if HasDuplicates(repos) then Err(DuplicateRepositories)
    else
      match FetchAll(repos, fetch)
      case Err(f) => Err(f)
      case Ok(logs) =>
        if |repos| == 0 then Err(EmptyReduce)
        else Ok(ActivityChart("Commit Activity Chart", Subtitle(repos),
                              Flatten(AllRows(repos, logs, pretty, utcOffset))))
  }

  /** `createActivityChart(repos, output)`, step by step. */
  method CreateActivityChart(repos: seq<string>, output: string, fetch: string -> Result<seq<Commit>>,
                             pretty: string -> string, utcOffset: int) returns (r: Result<ActivityChart>)
    ensures r == CommitActivity(repos, output, fetch, pretty, utcOffset)
  {
    if !HasAllowedFormat(output) {
      return Err(OutputFormatNotAllowed);
    }
    if |set x | x in repos| != |repos| {
      return Err(DuplicateRepositories);
    }
    var results := FetchAll(repos, fetch);
    if results.Err? {
      return Err(results.failure);
    }
    var logs := results.value;
    var commitTimes := [];
    for i := 0 to |repos|
      invariant commitTimes == Flatten(AllRows(repos[..i], logs[..i], pretty, utcOffset))
    {
      var repoCommits := CountRepo(repos[i], logs[i], pretty, utcOffset);
      assert AllRows(repos[..i + 1], logs[..i + 1], pretty, utcOffset)[..i]
          == AllRows(repos[..i], logs[..i], pretty, utcOffset);
      commitTimes := commitTimes + repoCommits;
    }
    assert repos[..|repos|] == repos && logs[..|repos|] == logs;
    if |repos| == 0 {
      return Err(EmptyReduce);
    }
    r := Ok(ActivityChart("Commit Activity Chart", Subtitle(repos), commitTimes));
  }

  // ---------------------------------------------------------------------------
  // What the command promises

  /**
    The format check comes first, the duplicate check second, and both come
    before any log is fetched.
   */
  lemma ValidationOrder(repos: seq<string>, output: string, fetch: string -> Result<seq<Commit>>,
                        fetch': string -> Result<seq<Commit>>, pretty: string -> string, utcOffset: int)
    ensures !HasAllowedFormat(output) ==>
              CommitActivity(repos, output, fetch, pretty, utcOffset) == Err(OutputFormatNotAllowed)
    ensures HasAllowedFormat(output) && (exists i, j :: 0 <= i < j < |repos| && repos[i] == repos[j]) ==>
              CommitActivity(repos, output, fetch, pretty, utcOffset) == Err(DuplicateRepositories)
    ensures !HasAllowedFormat(output) || HasDuplicates(repos) ==>
              CommitActivity(repos, output, fetch, pretty, utcOffset)
              == CommitActivity(repos, output, fetch', pretty, utcOffset)
  {
    HasDuplicatesIff(repos);
  }

  /**
    The rows of one repository: at most one per day, each with the number
    of that repository's commits on that day and the repository's label,
    all of them together holding every commit of the repository.
   */
  lemma {:induction false} RepoRowsSpec(repo: string, log: seq<Commit>, pretty: string -> string, utcOffset: int)
    ensures var rows := RepoRows(repo, log, pretty, utcOffset);
            var days := DayKeys(log, utcOffset);
            && (forall i, j :: 0 <= i < j < |rows| ==> rows[i].date != rows[j].date)
            && (forall i :: 0 <= i < |rows| ==> rows[i].count == multiset(days)[rows[i].date])
            && (forall i :: 0 <= i < |rows| ==> rows[i].repo == RepoLabel(repo, pretty))
            && (forall i :: 0 <= i < |rows| ==>
                  exists j :: 0 <= j < |log| && rows[i].date == DayKey(log[j].timestamp, utcOffset))
            && Total(Counts(days)) == |log|
  {
    var days := DayKeys(log, utcOffset);
    CountsKeys(days);
    CountsAreOccurrences(days);
    CountsTotal(days);
    ProjectedKeysOccur(log, (c: Commit) => DayKey(c.timestamp, utcOffset));
  }

  lemma {:induction false} FlattenAppend<T>(lists: seq<seq<T>>, more: seq<seq<T>>)
    ensures Flatten(lists + more) == Flatten(lists) + Flatten(more)
    decreases |more|
  {
    if more == [] {
      assert lists + more == lists;
    } else {
      var n := |more| - 1;
      FlattenAppend(lists, more[..n]);
      assert (lists + more)[..|lists + more| - 1] == lists + more[..n];
    }
  }

  /**
    The drawn rows are the rows of the first repository, then those of the
    second, and so on, with nothing between or after them.
   */
  lemma {:induction false} FlattenInOrder<T>(lists: seq<seq<T>>)
    ensures lists != [] ==> Flatten(lists) == lists[0] + Flatten(lists[1..])
    ensures |Flatten(lists)| == SumLengths(lists)
    decreases |lists|
  {
    if lists != [] {
      FlattenAppend([lists[0]], lists[1..]);
      assert [lists[0]] + lists[1..] == lists;
      assert Flatten([lists[0]]) == lists[0] by {
        assert [lists[0]][..0] == [];
      }
      FlattenInOrder(lists[1..]);
    }
  }

  function SumLengths<T>(lists: seq<seq<T>>): nat
    decreases |lists|
  {
    if lists == [] then 0 else |lists[0]| + SumLengths(lists[1..])
  }

  /**
    The subtitle names every repository, joined by ", ", after "Repository"
    for a single one and "Repositories" otherwise; with no repository at all
    the `reduce` throws.
   */
  lemma {:induction false} SubtitleSpec(repos: seq<string>)
    requires |repos| > 0
    ensures Subtitle(repos) == (if |repos| == 1 then "Repository" else "Repositories") + ": " + Join(repos, ", ")
    ensures |repos| == 1 ==> Subtitle(repos) == "Repository: " + repos[0]
  {
    ReduceJoinIsJoin(repos);
  }

  lemma {:induction false} NoRepositories(output: string, fetch: string -> Result<seq<Commit>>, pretty: string -> string,
                       utcOffset: int)
    requires HasAllowedFormat(output)
    ensures CommitActivity([], output, fetch, pretty, utcOffset) == Err(EmptyReduce)
  {
    var none: seq<string> := [];
    assert (set x | x in none) == {};
  }
}
