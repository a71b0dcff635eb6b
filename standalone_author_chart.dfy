/**
  The stand-alone author chart (`createAuthorChart` of the first version):
  it checks the output name, decides whether the repository is a URL to
  clone or a local directory, reads the log, ranks the authors and draws one
  bar per kept author, labelled with the author's name.
 */
module StandaloneAuthorChart {
  import opened Text
  import opened Tally
  import opened GitLog
  import opened AuthorRanking

  /** `join(dir, name)` for a plain relative name (no normalisation of `..` or repeated separators). */
  function PathJoin(dir: string, name: string): string {
    dir + "/" + name
  }

  /** Where the log comes from: a temporary clone of a URL, or a local directory. */
  datatype Source = Clone(url: string) | Local(dir: string)

  /**
    The repository check: a string `URL.canParse` accepts (`isUrl`) is cloned;
    any other is a local directory, which must exist (in `existing`, the paths
    present on disk) and then must contain `.git`.
   */
  function ResolveDir(repo: string, isUrl: bool, existing: set<string>): (r: Result<Source>)
    ensures r.Ok? <==> isUrl || (repo in existing && PathJoin(repo, ".git") in existing)
    ensures r == Err(DirectoryMissing(repo)) <==> !isUrl && repo !in existing
    ensures r == Err(NotAGitRepository(repo)) <==>
              !isUrl && repo in existing && PathJoin(repo, ".git") !in existing
    ensures r.Ok? ==> r.value == if isUrl then Clone(repo) else Local(repo)
  {
    if isUrl then Ok(Clone(repo))
    else if repo !in existing then Err(DirectoryMissing(repo))
    else if PathJoin(repo, ".git") !in existing then Err(NotAGitRepository(repo))
    else Ok(Local(repo))
  }

  /** The chart drawn from the kept rows: the author names as labels, the counts as data. */
  function ChartOf(repo: string, kept: seq<Bucket<Author>>): BarChart {
    BarChart("Commits per Author (top 50)", "Repository: " + repo,
             seq(|kept|, i requires 0 <= i < |kept| => kept[i].key.name),
             seq(|kept|, i requires 0 <= i < |kept| => kept[i].count))
  }

  /**
    What the command produces: the failure it throws, or the chart it draws.
    `gitLog` stands for cloning (when needed) and `git.log`, which may fail.
   */
  function AuthorChart(repo: string, output: string, isUrl: bool, existing: set<string>,
                       gitLog: Source -> Result<seq<Commit>>): Result<BarChart>
  {
    if !EndsWith(output, ".png") then Err(OutputNotPng)
    else
      match ResolveDir(repo, isUrl, existing)
      case Err(f) => Err(f)
      case Ok(src) =>
        match gitLog(src)
        case Err(f) => Err(f)
        case Ok(log) => Ok(ChartOf(repo, Ranking(log)))
  }

  /** `createAuthorChart(repo, output)`, step by step. */
  method CreateAuthorChart(repo: string, output: string, isUrl: bool, existing: set<string>,
                           gitLog: Source -> Result<seq<Commit>>) returns (r: Result<BarChart>)
    ensures r == AuthorChart(repo, output, isUrl, existing, gitLog)
  {
    if !EndsWith(output, ".png") {
      return Err(OutputNotPng);
    }
    var src := ResolveDir(repo, isUrl, existing);
    if src.Err? {
      return Err(src.failure);
    }
    var log := gitLog(src.value);
    if log.Err? {
      return Err(log.failure);
    }
    var kept := RankAuthors(log.value);
    r := Ok(ChartOf(repo, kept));
  }

  /**
    The output name is checked first: a name not ending in `.png` fails the
    same way whatever the repository, the disk and the log are.
   */
  lemma PngCheckFirst(repo: string, output: string, isUrl: bool, existing: set<string>,
                      gitLog: Source -> Result<seq<Commit>>,
                      repo': string, isUrl': bool, existing': set<string>,
                      gitLog': Source -> Result<seq<Commit>>)
    requires !EndsWith(output, ".png")
    ensures AuthorChart(repo, output, isUrl, existing, gitLog) == Err(OutputNotPng)
    ensures AuthorChart(repo, output, isUrl, existing, gitLog)
         == AuthorChart(repo', output, isUrl', existing', gitLog')
  {
  }

  /**
    A local path that does not exist fails with "does not exist" before `.git`
    is looked for; an existing one without `.git` fails with "is not a Git
    repository"; in both cases the log is never read.
   */
  lemma LocalPathChecks(repo: string, output: string, existing: set<string>,
                        gitLog: Source -> Result<seq<Commit>>)
    requires EndsWith(output, ".png")
    ensures repo !in existing ==>
              AuthorChart(repo, output, false, existing, gitLog) == Err(DirectoryMissing(repo))
    ensures repo in existing && PathJoin(repo, ".git") !in existing ==>
              AuthorChart(repo, output, false, existing, gitLog) == Err(NotAGitRepository(repo))
  {
  }

  /**
    A drawn chart has one label and one value per kept author, index by
    index: label `i` is the name of the `i`-th ranked author and value `i` is
    the number of commits with that author's (name, email) pair; there are at
    most 50 bars, from most commits to fewest.
   */
  lemma {:induction false} ChartMatchesRanking(repo: string, output: string, isUrl: bool, existing: set<string>,
                            gitLog: Source -> Result<seq<Commit>>)
    ensures var r := AuthorChart(repo, output, isUrl, existing, gitLog);
            r.Ok? ==>
              var log := gitLog(if isUrl then Clone(repo) else Local(repo)).value;
              var kept := Ranking(log);
              && |r.value.labels| == |r.value.data| == |kept| <= TopCount
              && (forall i :: 0 <= i < |kept| ==>
                    r.value.labels[i] == kept[i].key.name &&
                    r.value.data[i] == multiset(Authors(log))[kept[i].key])
              && (forall i, j :: 0 <= i < j < |kept| ==> r.value.data[i] >= r.value.data[j])
  {
    var r := AuthorChart(repo, output, isUrl, existing, gitLog);
    if r.Ok? {
      var log := gitLog(if isUrl then Clone(repo) else Local(repo)).value;
      RankingIsPrefix(log);
      RankingCounts(log);
      RankingOrder(log);
    }
  }
}
