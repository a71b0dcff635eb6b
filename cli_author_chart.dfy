/**
  The author chart of the command-line tool (`createAuthorChart` under
  `commands/`): it checks the output name, fetches the log through the shared
  `getRepoLog`, ranks the authors and draws one bar per kept author, labelled
  `name <email>`.
 */
module CliAuthorChart {
  import opened Text
  import opened Tally
  import opened GitLog
  import opened AuthorRanking

  /** The bar label of an author: `${name} <${email}>`. */
  function AuthorLabel(a: Author): string {
    a.name + " <" + a.email + ">"
  }

  function ChartOf(repo: string, kept: seq<Bucket<Author>>): BarChart {
    BarChart("Commits per Author (top 50)", "Repository: " + repo,
             seq(|kept|, i requires 0 <= i < |kept| => AuthorLabel(kept[i].key)),
             seq(|kept|, i requires 0 <= i < |kept| => kept[i].count))
  }

  /**
    What the command produces: the failure it throws, or the chart it draws.
    `fetch` stands for `getRepoLog`, which clones or opens the repository and
    reads its log, and may fail.
   */
  function AuthorChart(repo: string, output: string, fetch: string -> Result<seq<Commit>>): Result<BarChart> {
    if !EndsWith(output, ".png") then Err(OutputNotPng)
    else
      match fetch(repo)
      case Err(f) => Err(f)
      case Ok(log) => Ok(ChartOf(repo, Ranking(log)))
  }

  /** `createAuthorChart(repo, output)`, step by step. */
  method CreateAuthorChart(repo: string, output: string, fetch: string -> Result<seq<Commit>>)
    returns (r: Result<BarChart>)
    ensures r == AuthorChart(repo, output, fetch)
  {
    if !EndsWith(output, ".png") {
      return Err(OutputNotPng);
    }
    var log := fetch(repo);
    if log.Err? {
      return Err(log.failure);
    }
    var kept := RankAuthors(log.value);
    r := Ok(ChartOf(repo, kept));
  }

  /** An output name not ending in `.png` fails before the log is fetched: the fetch does not matter. */
  lemma PngCheckFirst(repo: string, output: string, fetch: string -> Result<seq<Commit>>,
                      fetch': string -> Result<seq<Commit>>)
    requires !EndsWith(output, ".png")
    ensures AuthorChart(repo, output, fetch) == Err(OutputNotPng)
    ensures AuthorChart(repo, output, fetch) == AuthorChart(repo, output, fetch')
  {
  }

  /**
    A drawn chart has at most 50 bars, one per kept (name, email) pair, no
    pair twice: label `i` is `name <email>` of the `i`-th ranked author and
    value `i` its number of commits, from most commits to fewest.
   */
  lemma {:induction false} ChartMatchesRanking(repo: string, output: string, fetch: string -> Result<seq<Commit>>)
    ensures var r := AuthorChart(repo, output, fetch);
            r.Ok? ==>
              var log := fetch(repo).value;
              var kept := Ranking(log);
              && |r.value.labels| == |r.value.data| == |kept| <= TopCount
              && UniqueKeys(kept)
              && (forall i :: 0 <= i < |kept| ==>
                    r.value.labels[i] == AuthorLabel(kept[i].key) &&
                    r.value.data[i] == multiset(Authors(log))[kept[i].key])
              && (forall i, j :: 0 <= i < j < |kept| ==> r.value.data[i] >= r.value.data[j])
  {
    var r := AuthorChart(repo, output, fetch);
    if r.Ok? {
      var log := fetch(repo).value;
      RankingIsPrefix(log);
      RankingCounts(log);
      RankingOrder(log);
    }
  }
}
