/**
  What every command reads from a repository, and the ways a command can
  fail. A commit is reduced to the author fields the commands look at; the
  errors are the `Error`s the commands throw, with their messages.
 */
module GitLog {
  import opened Text

  /** `entry.commit.author` of one `git log` entry: name, email and Unix timestamp in seconds. */
  datatype Commit = Commit(name: string, email: string, timestamp: int)

  datatype Failure =
    | OutputNotPng
    | OutputFormatNotAllowed
    | IntervalNotAllowed
    | DirectoryMissing(dir: string)
    | NotAGitRepository(dir: string)
    | DuplicateRepositories
      /** `reduce` without an initial value on an empty array throws a TypeError. */
    | EmptyReduce
      /** Cloning or reading the log failed inside the git library. */
    | GitFailure(reason: string)

  datatype Result<T> = Ok(value: T) | Err(failure: Failure)

  /** The image formats the packaged commands accept. */
  const AllowedFormats: seq<string> := ["png", "jpeg", "webp"]

  /** `allowedFormats.some((fmt) => output.endsWith(`.${fmt}`))`. */
  predicate EndsWithAny(output: string, formats: seq<string>)
    decreases |formats|
  {
    formats != [] && (EndsWith(output, "." + formats[0]) || EndsWithAny(output, formats[1..]))
  }

  predicate HasAllowedFormat(output: string) {
    EndsWithAny(output, AllowedFormats)
  }

  /** The accepted outputs are exactly those with one of the three extensions. */
  lemma {:induction false} HasAllowedFormatCases(output: string)
    ensures HasAllowedFormat(output) <==>
              EndsWith(output, ".png") || EndsWith(output, ".jpeg") || EndsWith(output, ".webp")
  {
    assert AllowedFormats[1..] == ["jpeg", "webp"];
    assert AllowedFormats[1..][1..] == ["webp"];
  }

  /** `formats.map((f) => `${prefix}${f}${suffix}`)`. */
  function Decorate(formats: seq<string>, prefix: string, suffix: string): (r: seq<string>)
    ensures |r| == |formats|
    ensures forall i :: 0 <= i < |formats| ==> r[i] == prefix + formats[i] + suffix
  {
    seq(|formats|, i requires 0 <= i < |formats| => prefix + formats[i] + suffix)
  }

  const AllowedIntervals: seq<string> := ["day", "month", "year"]

  /** The text of the `Error` each failure throws. */
  function Message(f: Failure): string {
    match f
    case OutputNotPng => "Output file must be a PNG"
    case OutputFormatNotAllowed =>
      "Output file must be one of: " + Join(Decorate(AllowedFormats, ".", ""), ", ")
    case IntervalNotAllowed =>
      "Interval must be one of: " + Join(Decorate(AllowedIntervals, "\"", "\""), ", ")
    case DirectoryMissing(dir) => "Directory " + dir + " does not exist"
    case NotAGitRepository(dir) => "Directory " + dir + " is not a Git repository"
    case DuplicateRepositories => "Duplicate repositories found in the input array"
    case EmptyReduce => "Reduce of empty array with no initial value"
    case GitFailure(reason) => reason
  }

  /** The format message lists every accepted extension. */
  lemma FormatMessage()
    ensures Message(OutputFormatNotAllowed) == "Output file must be one of: .png, .jpeg, .webp"
  {
    var fs := Decorate(AllowedFormats, ".", "");
    assert fs[0] == ".png" && fs[1] == ".jpeg" && fs[2] == ".webp";
    assert fs[1..][1..] == [".webp"];
    assert Join(fs[1..], ", ") == ".jpeg" + ", " + ".webp";
  }

  /** The interval message lists every accepted interval, quoted. */
  lemma IntervalMessage()
    ensures Message(IntervalNotAllowed) == "Interval must be one of: \"day\", \"month\", \"year\""
  {
    var ivs := Decorate(AllowedIntervals, "\"", "\"");
    assert ivs[0] == "\"day\"" && ivs[1] == "\"month\"" && ivs[2] == "\"year\"";
    assert ivs[1..][1..] == ["\"year\""];
    assert Join(ivs[1..], ", ") == "\"month\"" + ", " + "\"year\"";
  }
}
