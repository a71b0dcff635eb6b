# enodo commit aggregation, modelled in Dafny

enodo draws charts from the commit history of Git repositories. Each command
reads a repository's log and reduces every commit to its author's name, email
and timestamp. It then aggregates the commits with the same find-or-push loop:
`find` the row whose key matches, increment its count, or `push` a new row
with count 1. This project models those aggregations and the checks that
come before them:

- **Stand-alone author chart** (`src/author-commits.ts`):
  - checks the output name (`.png`);
  - decides between cloning a URL and reading a local directory, which must
    exist and contain `.git`;
  - counts commits per exact (name, email) pair;
  - sorts: more commits first, ties by lower-cased name ascending;
  - keeps 50 rows (`splice(50)`);
  - labels each bar with the author's name.
- **Command-line author chart** (`src/commands/author-commits.ts`): the same
  pipeline, except the log comes from `getRepoLog` and each bar is labelled
  `name <email>`.
- **Packaged author chart**
  (`packages/git-visualize/src/commands/author-commits.ts`):
  - accepts `.png`, `.jpeg` or `.webp`;
  - counts per (name, email) pair;
  - calls `splice(50)` with no sort before it, so it keeps the first 50
    authors *in order of first appearance* in the log.
  - `PackageAuthorChart.FirstSeenIsNotTop` proves that such a chart can drop
    an author with more commits than every author it keeps.
- **Author activity** (`packages/git-visualize/src/commands/author-activity.ts`):
  - checks the format, then the interval (`day`, `month`, `year`);
  - keys every commit by `Date.UTC` of the start of its UTC interval and by
    its author's *name*, and counts the keys (`Date.UTC` reads a year from 0
    to 99 as 1900 to 1999, so such commits are keyed 1900 years later);
  - adds up each author's total in a dictionary;
  - sorts the totals, highest first, and keeps `maxEntries` of them;
  - filters the rows down to those authors.
- **Commit activity** (`packages/git-visualize/src/commands/commit-activity.ts`):
  - checks the format, then rejects a repository list that repeats itself;
  - fetches every log;
  - counts each repository's commits per day key, the local midnight that
    `new Date(y, m, d)` gives for the commit's UTC date (with the same
    two-digit-year reading), labelling each row with the repository's
    pretty name;
  - concatenates the lists in input order;
  - joins the repository names into the subtitle with `reduce`.

Each command is a function from its inputs to `Result<chart>`, where a
`Failure` stands for each `Error` the command throws, with its message. A
method beside it performs the same steps imperatively and is proved equal to
the function. Behaviour outside the core is passed in as a parameter:

| parameter | stands for |
|---|---|
| `fetch` | `getRepoLog` |
| `gitLog` | clone plus `git.log` |
| `isUrl` | `URL.canParse` |
| `existing` | the paths on disk |
| `pretty` | `prettyURL` |
| `utcOffset` | the host time zone's offset from UTC |

Modules:

- `Tally`: the find-or-push accumulator.
  - `Counts` is its specification; `TallyKeys` is the loop.
  - `Regroup` re-keys rows under a coarser key, adding up their counts.
- `StableSort`: `Array.prototype.sort` as a stable insertion sort.
  - `SortBy` is its specification; `SortInPlace` sorts an array.
- `CivilTime`: UTC calendar arithmetic, `Date.UTC` with its two-digit-year
  reading, and period truncation.
- `Text`: `endsWith`, `join`, `reduce`, ASCII `toLowerCase`, string `<` and
  decimal rendering.
- `GitLog`: commits, failures and their messages.
- `AuthorRanking`: counting, sorting and splicing the authors.
- One module per command: `StandaloneAuthorChart`, `CliAuthorChart`,
  `PackageAuthorChart`, `AuthorActivity` and `CommitActivity`.

## Model

| member | source | states |
|---|---|---|
| Tally.TallyKeys | src/author-commits.ts:77-93 | The find-or-push loop (`find` the matching row, increment it or push a row with count 1) leaves exactly the rows `Counts(keys)`. |
| Tally.FindKeyIsFirstMatch | src/author-commits.ts:81-83 | `find` stops at the first row whose key matches, or reports none. |
| Tally.CountsKeys | src/author-commits.ts:77-93 | The rows have pairwise different keys. A key has a row iff it occurs in the input. Rows appear in order of their key's first occurrence. |
| Tally.CountsAreOccurrences | src/author-commits.ts:84-91 | Every row's count is the number of occurrences of its key in the input. |
| Tally.CountsTotal | src/commands/author-commits.ts:49-65 | The counts add up to the number of commits: every commit lands in exactly one row. |
| Tally.DistinctCount | packages/git-visualize/src/commands/author-commits.ts:45-61 | The number of rows equals the number of distinct keys. |
| Tally.ProjectedKeysOccur | packages/git-visualize/src/commands/commit-activity.ts:47-67 | Every row's key is the key of some commit: no row appears out of nowhere. |
| Tally.RegroupCounts | packages/git-visualize/src/commands/author-activity.ts:80-83 | Adding up the per-(period, author) rows by author gives the same dictionary as counting the authors directly: same entries, same insertion order, same totals. |
| Tally.DistinctSetSize | packages/git-visualize/src/commands/commit-activity.ts:22 | A set built from a list has as many elements as the list iff the list has no repeated element. |
| StableSort.SortInPlace | src/author-commits.ts:96-102 | Sorting the array in place leaves exactly `SortBy` of its old contents. |
| StableSort.SortByPermutes | src/author-commits.ts:96-102 | The sort is a permutation of its input. |
| StableSort.SortBySorted | src/author-commits.ts:96-102 | For a consistent comparator, no element of the result is ahead of an earlier one. |
| StableSort.SortByStable | src/commands/author-commits.ts:68-74 | Elements that tie keep their original relative order (the sort is stable). |
| Text.LessTransitive | src/author-commits.ts:99-100 | The `<` of strings is transitive; `LessIrreflexive` and `LessTotal` complete the strict total order. |
| Text.ReduceJoinIsJoin | packages/git-visualize/src/commands/commit-activity.ts:78-80 | The `reduce` with `${prev}, ${curr}` builds the same string as `join(", ")`; one element reduces to itself. |
| Text.NatToStringRoundTrip | packages/git-visualize/src/commands/author-commits.ts:72 | The decimal text of a count in the title reads back as that count. |
| GitLog.HasAllowedFormatCases | packages/git-visualize/src/commands/author-commits.ts:13-16 | An output is accepted iff it ends in `.png`, `.jpeg` or `.webp`. |
| GitLog.FormatMessage | packages/git-visualize/src/commands/author-commits.ts:17-19 | The format error reads "Output file must be one of: .png, .jpeg, .webp". |
| GitLog.IntervalMessage | packages/git-visualize/src/commands/author-activity.ts:27-32 | The interval error lists `"day", "month", "year"`, quoted and comma-separated. |
| AuthorRanking.AheadIsStrictWeakOrder | src/author-commits.ts:97-101 | The comparator (more commits first, then lower-cased name ascending) is irreflexive, transitive, and its incomparability is transitive, so the sort is well defined. |
| AuthorRanking.RankAuthors | src/author-commits.ts:77-103 | Counting, copying into an array, sorting in place and `splice(50)` yield exactly `Ranking(log)`. |
| AuthorRanking.RankingIsPrefix | src/author-commits.ts:103 | At most 50 rows are kept, min(number of authors, 50), and they are the first rows of the sorted array. |
| AuthorRanking.RankingCounts | src/author-commits.ts:77-93 | Each kept row is a different (name, email) pair holding exactly that pair's number of commits. |
| AuthorRanking.RankingOrder | src/author-commits.ts:96-102 | Kept rows run from most commits to fewest; among equal counts, lower-cased names never descend. |
| AuthorRanking.RankingIsTop | src/author-commits.ts:96-103 | No author left out has more commits than any author kept. |
| StandaloneAuthorChart.ResolveDir | src/author-commits.ts:26-36 | A parseable URL is cloned. A missing local path fails with "does not exist". An existing path without `.git` fails with "is not a Git repository". Otherwise the directory is read. Each case holds iff its condition does. |
| StandaloneAuthorChart.CreateAuthorChart | src/author-commits.ts:20-140 | The command's steps produce exactly `AuthorChart`: its failure or its chart. |
| StandaloneAuthorChart.PngCheckFirst | src/author-commits.ts:21-24 | An output not ending in `.png` fails with "Output file must be a PNG", whatever the repository, the disk and the log. |
| StandaloneAuthorChart.LocalPathChecks | src/author-commits.ts:28-35 | For a local path, existence is checked before `.git`, and the log is not read after either failure. |
| StandaloneAuthorChart.ChartMatchesRanking | src/author-commits.ts:120-141 | One bar per kept author: label `i` is the name and value `i` the commit count of the `i`-th ranked author, at most 50 bars, non-increasing. |
| CliAuthorChart.CreateAuthorChart | src/commands/author-commits.ts:18-112 | The command's steps produce exactly `AuthorChart`. |
| CliAuthorChart.PngCheckFirst | src/commands/author-commits.ts:22-25 | A non-`.png` output fails before the log is fetched; the fetch does not matter. |
| CliAuthorChart.ChartMatchesRanking | src/commands/author-commits.ts:92-112 | The bars are `name <email>` of the ranked authors with their commit counts, at most 50, no pair twice, non-increasing. |
| PackageAuthorChart.CreateAuthorChart | packages/git-visualize/src/commands/author-commits.ts:9-73 | The command's steps produce exactly `AuthorChart`. |
| PackageAuthorChart.FormatCheckFirst | packages/git-visualize/src/commands/author-commits.ts:13-20 | An output without one of the three extensions fails with the listing message, before the log is fetched. |
| PackageAuthorChart.FirstSeenSpec | packages/git-visualize/src/commands/author-commits.ts:45-63 | The kept rows are the first min(n, 50) counted rows (n distinct pairs): unique, each with its pair's commit count, in order of first appearance. The counts before the splice add up to the number of commits. |
| PackageAuthorChart.TitleCount | packages/git-visualize/src/commands/author-commits.ts:72 | The title's number is the number of bars, min(distinct authors, 50). |
| PackageAuthorChart.FirstSeenIsNotTop | packages/git-visualize/src/commands/author-commits.ts:63 | With 50 single-commit authors first and a two-commit author after them, the two-commit author is dropped while every kept row has count 1: the kept rows are the first seen, not the top. |
| AuthorActivity.ParseIntervalInverse | packages/git-visualize/src/commands/author-activity.ts:26-34 | Exactly `day`, `month` and `year` are accepted, each as its own interval. |
| AuthorActivity.SameRow | packages/git-visualize/src/commands/author-activity.ts:57-71 | Two commits share a row iff they have the same author name and `Date.UTC` puts the starts of their periods on the same date. Outside years 0 to 99 that means the same UTC day, month or year. Inside them the year is read as 1900 to 1999; 29 February of year 0 by day is the one exception. |
| AuthorActivity.SumByAuthor | packages/git-visualize/src/commands/author-activity.ts:80-83 | The dictionary loop leaves exactly `Regroup(rows, author)`, the entries kept in insertion order. |
| AuthorActivity.CountedRows | packages/git-visualize/src/commands/author-activity.ts:56-77 | One row per (period start, name), none twice. Each row's count is the number of commits with its key. Every row's key comes from some commit, and all counts add up to the number of commits. |
| AuthorActivity.AuthorTotals | packages/git-visualize/src/commands/author-activity.ts:80-83 | Each author's total is their number of commits. There is one entry per name, in order of the name's first commit. |
| AuthorActivity.TopAuthorsSpec | packages/git-visualize/src/commands/author-activity.ts:84-87 | The top authors are `slice(0, maxEntries)` of the totals sorted highest first: at most `maxEntries` for a non-negative value, a permutation of the totals, and no author left out above one kept. |
| AuthorActivity.TopAuthorsStable | packages/git-visualize/src/commands/author-activity.ts:85 | Authors with equal totals keep their dictionary order. |
| AuthorActivity.FilterByAuthorSpec | packages/git-visualize/src/commands/author-activity.ts:89 | The filter keeps exactly the rows of the top authors, in their original order. |
| AuthorActivity.ValidationOrder | packages/git-visualize/src/commands/author-activity.ts:19-33 | The format check fails first, then the interval check, both before the log is fetched. |
| AuthorActivity.RunAuthorActivity | packages/git-visualize/src/commands/author-activity.ts:9-107 | The command's steps produce exactly `AuthorActivity`. |
| CivilTime.CivilRoundTrip | packages/git-visualize/src/commands/author-activity.ts:58-62 | The UTC year, month and day that `getUTC*` read off day `z` (proleptic calendar, no two-digit-year reading) number back to `z`. |
| CivilTime.DateRoundTrip | packages/git-visualize/src/commands/author-activity.ts:58-62 | Every valid proleptic date is the `getUTC*` date of its own day number. |
| CivilTime.DaysFromCivilInjective | packages/git-visualize/src/commands/author-activity.ts:58-62 | In the proleptic day numbering behind `getUTC*`, two valid dates have the same day number iff they are equal. |
| CivilTime.NextDayIsNextNumber | packages/git-visualize/src/commands/author-activity.ts:58-62 | The calendar successor of a date (month lengths and Gregorian leap years) has the next proleptic day number. This checks the day numbering independently. |
| CivilTime.EpochIsDayZero | packages/git-visualize/src/commands/author-activity.ts:58 | 1970-01-01 is day 0, the instant `timestamp * 1000` counts from. |
| CivilTime.DayOfInstant | packages/git-visualize/src/commands/author-activity.ts:58-62 | An instant lies in the UTC day that `getUTC*` name: at or after that day's proleptic midnight, and before the next one. |
| CivilTime.TruncateSpec | packages/git-visualize/src/commands/author-activity.ts:58-68 | The key is a UTC midnight on the date `Date.UTC` makes of the period start, and truncating twice changes nothing. Outside years 0 to 99 the key is not later than the commit, and its UTC date is the first day of the commit's period. Inside them the key's year is the commit's year plus 1900, so the key lies after the commit. |
| CivilTime.TruncateSamePeriod | packages/git-visualize/src/commands/author-activity.ts:60-70 | Two commits get the same key iff `Date.UTC` puts their period starts on the same date. Outside years 0 to 99 that means the same UTC day, month or year. Inside them the years are read as 1900 to 1999; 29 February of year 0 by day is the one exception. |
| CivilTime.KeyDateSpec | packages/git-visualize/src/commands/author-activity.ts:61-67 | `Date.UTC(y, m, d)` is UTC midnight of the date itself when `y` is outside 0 to 99. Inside that range it is the same month and day in year 1900 + `y` (`MakeFullYear`). 29 February of year 0 runs on to 1 March 1900. |
| CivilTime.TwoDigitYearsAlias | packages/git-visualize/src/commands/author-activity.ts:61-67 | A date in years 0 to 99 and the same day 1900 years later lie in different periods, yet get the same key. |
| CommitActivity.DayKeySame | packages/git-visualize/src/commands/commit-activity.ts:48-56 | Two commits get the same day key iff `new Date(y, m, d)` puts their UTC dates on the same day, whatever the fixed offset. Outside years 0 to 99 that means the same UTC date. Inside them it means the same date with years read as 1900 to 1999; 29 February of year 0 is the one exception. |
| CommitActivity.CountRepo | packages/git-visualize/src/commands/commit-activity.ts:47-67 | The per-repository loop leaves exactly the day rows of the log, each labelled with the repository's name. |
| CommitActivity.RepoRowsSpec | packages/git-visualize/src/commands/commit-activity.ts:47-67 | At most one row per day. Each row's count is the repository's number of commits on that day, and each row carries the repository's label. Every day comes from a commit, and all counts add up to the number of commits. |
| CommitActivity.FetchAll | packages/git-visualize/src/commands/commit-activity.ts:33-35 | All logs come back, one per repository in order, iff no fetch fails. |
| CommitActivity.HasDuplicatesIff | packages/git-visualize/src/commands/commit-activity.ts:22-24 | The set-size check fires iff some repository appears twice. |
| CommitActivity.ValidationOrder | packages/git-visualize/src/commands/commit-activity.ts:13-24 | The format check fails first, then the duplicate check, both before any log is fetched. |
| CommitActivity.FlattenInOrder | packages/git-visualize/src/commands/commit-activity.ts:39-70 | `flat()` gives the first repository's rows, then the rest in order; its length is the sum of the lengths. |
| CommitActivity.SubtitleSpec | packages/git-visualize/src/commands/commit-activity.ts:73-80 | The subtitle is "Repository" for one repository and "Repositories" otherwise, followed by the names joined with ", ". |
| CommitActivity.NoRepositories | packages/git-visualize/src/commands/commit-activity.ts:78-80 | With no repositories, the `reduce` without an initial value throws. |
| CommitActivity.CreateActivityChart | packages/git-visualize/src/commands/commit-activity.ts:9-80 | The command's steps produce exactly `CommitActivity`. |

## Left out

- Cloning, temporary directories, progress bars, `console` output, chart.js, Observable Plot, skia-canvas and puppeteer rendering: the model stops at the data handed to the chart (labels, values, rows, titles).
- The packaged author chart's bar order on screen (`sort: {y: '-x'}` inside `Plot.barX`) is a display option of the plotting library. The model keeps the rows in the order they were spliced.
- `getRepoLog`, `git.log` and `git.clone` are parameters (`fetch`, `gitLog`). They may fail with any `GitFailure`. Their internals (`packages/git-visualize/src/internal/git-utils.ts`, `src/internal/git-utils.ts`) are not part of this model.
- `prettyURL` is the parameter `pretty`. Only `prettyRepo || repos[index]` around it is modelled.
- `URL.canParse` is the boolean `isUrl`, and `fs.existsSync` is membership in the set `existing`. `path.join` is modelled as `dir + "/" + name`, without normalising `..` or repeated separators.
- `CommitActivity.FetchAll`: `Promise.all` rejects with whichever fetch rejects first in time. The model reports the first failing repository in input order, because timing is outside the model. Which logs are fetched in parallel is not modelled either.
- The host time zone is a fixed offset `utcOffset` in seconds, so `new Date(y, m, d)` is local midnight at that offset. Daylight-saving changes are not modelled.
- `toLowerCase` lowers only the ASCII letters A-Z. Other Unicode case mappings are not modelled. String `<` compares `char`s, which matches JavaScript's UTF-16 code-unit order only for characters of the Basic Multilingual Plane.
- `Object.entries` lists integer-like keys (for example an author named "42") before the others. The model keeps every key in insertion order. Keys that clash with `Object.prototype` members are not modelled either.
- `parseInt(max, 10)` returning `NaN` is not modelled: `maxEntries` is an integer parameter. A negative value counts from the back, as `slice` does.
- The range limits of JavaScript `Date` (plus or minus 8.64e15 ms, outside which the getters return `NaN`) are not modelled. The model gives every integer timestamp a date.
- The rows are values, not objects: aliasing between the accumulator's row objects and the arrays that later hold them is not modelled.
- The `rawLog` command only dumps the log. It writes when the file exists and the user confirms (`packages/git-visualize/src/commands/raw-log.ts:19-27`), and it aggregates nothing.
- Command-line wiring (`src/index.ts`, `packages/git-visualize/src/index.ts`) only decides which arguments reach each command. It passes a third argument, `max` to the packaged author chart and `interval` to commit activity (packages/git-visualize/src/index.ts:26, :42), and neither command declares or uses it.
- Concurrency between the fetches is not modelled.
