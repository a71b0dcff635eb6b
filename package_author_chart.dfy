/**
  The author chart of the packaged tool: it checks the output extension
  against the three image formats, fetches the log, counts commits per
  (name, email) pair with the find-or-push loop and then keeps the first 50
  rows with `splice(50)`. No sort runs before the splice, so the rows kept
  are the first 50 authors in order of first appearance in the log.
 */
module PackageAuthorChart {
  import opened Text
  import opened Tally
  import opened GitLog
  import opened AuthorRanking

  /** The plot's input: the kept rows and the titles. */
  datatype BarPlot = BarPlot(title: string, subtitle: string, rows: seq<Bucket<Author>>)

  /** The rows left by `authors.splice(50)` right after the count. */
  function FirstSeen(log: seq<Commit>): seq<Bucket<Author>> {
    Splice(Counts(Authors(log)), TopCount)
  }

  function PlotOf(repo: string, kept: seq<Bucket<Author>>): BarPlot {
    BarPlot("Commits per Author (top " + NatToString(|kept|) + ")", "Repository: " + repo, kept)
  }

  /** What the command produces: the failure it throws, or the plot it draws. */
  function AuthorChart(repo: string, output: string, fetch: string -> Result<seq<Commit>>): Result<BarPlot> {
    if !HasAllowedFormat(output) then Err(OutputFormatNotAllowed)
    else
      match fetch(repo)
      case Err(f) => Err(f)
      case Ok(log) => Ok(PlotOf(repo, FirstSeen(log)))
  }

  /** `createAuthorChart(repo, output)`, step by step. */
  method CreateAuthorChart(repo: string, output: string, fetch: string -> Result<seq<Commit>>)
    returns (r: Result<BarPlot>)
    ensures r == AuthorChart(repo, output, fetch)
  {
    if !HasAllowedFormat(output) {
      return Err(OutputFormatNotAllowed);
    }
    var log := fetch(repo);
    if log.Err? {
      return Err(log.failure);
    }
    var authors := TallyKeys(Authors(log.value));
    authors := Splice(authors, TopCount);
    r := Ok(PlotOf(repo, authors));
  }

  /**
    An output without a `.png`, `.jpeg` or `.webp` extension fails, with the
    message listing the three, before the log is fetched.
   */
  lemma FormatCheckFirst(repo: string, output: string, fetch: string -> Result<seq<Commit>>,
                         fetch': string -> Result<seq<Commit>>)
    requires !(EndsWith(output, ".png") || EndsWith(output, ".jpeg") || EndsWith(output, ".webp"))
    ensures AuthorChart(repo, output, fetch) == Err(OutputFormatNotAllowed)
    ensures AuthorChart(repo, output, fetch) == AuthorChart(repo, output, fetch')
    ensures Message(AuthorChart(repo, output, fetch).failure)
         == "Output file must be one of: .png, .jpeg, .webp"
  {
    HasAllowedFormatCases(output);
    FormatMessage();
  }

  /**
    The kept rows are the first min(n, 50) rows of the count, where n is the
    number of distinct (name, email) pairs: one per pair, in order of first
    appearance, each with the pair's number of commits. The counts of all
    rows before the splice add up to the number of commits.
   */
  lemma {:induction false} FirstSeenSpec(log: seq<Commit>)
    ensures var kept := FirstSeen(log);
            var n := |set a | a in Authors(log)|;
            && |kept| == (if n < TopCount then n else TopCount)
            && kept == Counts(Authors(log))[..|kept|]
            && UniqueKeys(kept)
            && (forall i :: 0 <= i < |kept| ==> kept[i].count == multiset(Authors(log))[kept[i].key])
            && (forall i :: 0 <= i < |kept| ==> kept[i].key in Authors(log))
            && (forall i, j :: 0 <= i < j < |kept| ==>
                  FirstIndex(Authors(log), kept[i].key) < FirstIndex(Authors(log), kept[j].key))
            && Total(Counts(Authors(log))) == |log|
  {
    var keys := Authors(log);
    DistinctCount(keys);
    CountsKeys(keys);
    CountsAreOccurrences(keys);
    CountsTotal(keys);
    var rows := Counts(keys);
    forall i | 0 <= i < |rows| ensures rows[i].key in keys {
      assert KeysOf(rows)[i] == rows[i].key;
    }
  }

  /** The number in the title is the number of bars: min(distinct authors, 50). */
  lemma {:induction false} TitleCount(repo: string, output: string, fetch: string -> Result<seq<Commit>>)
    ensures var r := AuthorChart(repo, output, fetch);
            r.Ok? ==>
              var n := |set a | a in Authors(fetch(repo).value)|;
              var shown := if n < TopCount then n else TopCount;
              && r.value.title == "Commits per Author (top " + NatToString(shown) + ")"
              && |r.value.rows| == shown
  {
    if AuthorChart(repo, output, fetch).Ok? {
      FirstSeenSpec(fetch(repo).value);
    }
  }

  // ---------------------------------------------------------------------------
  // First seen is not the top

  /** Counting keys that never repeat gives one row of count 1 per key, in order. */
  lemma {:induction false} CountsOfDistinct<K>(keys: seq<K>)
    requires Distinct(keys)
    ensures Counts(keys) == seq(|keys|, i requires 0 <= i < |keys| => Bucket(keys[i], 1))
    decreases |keys|
  {
    if keys != [] {
      var n := |keys| - 1;
      var front := keys[..n];
      CountsOfDistinct(front);
      FindKeyIsFirstMatch(Counts(front), keys[n], n);
    }
  }

  /**
    Keeping the first 50 authors seen can drop an author with more commits
    than every author kept: with 50 single-commit authors first and a 51st
    author committing twice afterwards, the 51st is dropped.
   */
  lemma {:induction false} FirstSeenIsNotTop(d: seq<Commit>, x: Commit)
    requires |d| == TopCount && Distinct(Authors(d)) && AuthorOf(x) !in Authors(d)
    ensures var log := d + [x, x];
            var kept := FirstSeen(log);
            && AuthorOf(x) !in KeysOf(kept)
            && multiset(Authors(log))[AuthorOf(x)] == 2
            && (forall i :: 0 <= i < |kept| ==> kept[i].count == 1)
  {
    var log := d + [x, x];
    var keys := Authors(d);
    var a := AuthorOf(x);
    assert Authors(log) == keys + [a, a];
    assert Distinct(keys + [a]);
    CountsOfDistinct(keys);
    CountsOfDistinct(keys + [a]);
    var once := Counts(keys + [a]);
    assert (keys + [a, a])[..|keys| + 1] == keys + [a];
    FindKeyIsFirstMatch(once, a, |keys|);
    var twice := Counts(keys + [a, a]);
    assert twice == once[|keys| := Bucket(a, 2)];
    assert FirstSeen(log) == Counts(keys);
    assert multiset(keys)[a] == 0;
  }
}
