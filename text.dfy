/**
  String helpers that mirror the JavaScript string operations the commands
  use: `endsWith`, `Array.prototype.join`, a `reduce` that joins with ", ",
  `toLowerCase` (ASCII letters only), the `<` comparison of strings and the
  decimal rendering of a count inside a template literal.
 */
module Text {

  /** `s.endsWith(suffix)`. */
  predicate EndsWith(s: string, suffix: string) {
    |suffix| <= |s| && s[|s| - |suffix|..] == suffix
  }

  /** `parts.join(sep)`: the empty array joins to "". */
  function Join(parts: seq<string>, sep: string): string
    decreases |parts|
  {
    if |parts| == 0 then ""
    else if |parts| == 1 then parts[0]
    else parts[0] + sep + Join(parts[1..], sep)
  }

  /** The left fold of `parts.reduce((prev, curr) => `${prev}, ${curr}`)` once `acc` holds the first element. */
  function ReduceFrom(acc: string, rest: seq<string>): string
    decreases |rest|
  {
    if rest == [] then acc else ReduceFrom(acc + ", " + rest[0], rest[1..])
  }

  /**
    `parts.reduce((prev, curr) => `${prev}, ${curr}`)` without an initial value;
    JavaScript throws a TypeError on an empty array, hence the precondition
    (callers model that error themselves).
   */
  function ReduceJoin(parts: seq<string>): string
    requires |parts| > 0
  {
    ReduceFrom(parts[0], parts[1..])
  }

  /** The left fold of `reduce` builds the same string as `join(", ")` would. */
  lemma {:induction false} ReduceFromIsJoin(acc: string, rest: seq<string>)
    ensures ReduceFrom(acc, rest) == Join([acc] + rest, ", ")
    decreases |rest|
  {
    if rest != [] {
      var next := acc + ", " + rest[0];
      ReduceFromIsJoin(next, rest[1..]);
      assert ([acc] + rest)[1..] == rest;
      assert ([next] + rest[1..])[1..] == rest[1..];
      if |rest| > 1 {
        assert ([rest[0]] + rest[1..])[1..] == rest[1..];
        assert rest == [rest[0]] + rest[1..];
      }
    }
  }

  lemma {:induction false} ReduceJoinIsJoin(parts: seq<string>)
    requires |parts| > 0
    ensures ReduceJoin(parts) == Join(parts, ", ")
    ensures |parts| == 1 ==> ReduceJoin(parts) == parts[0]
  {
    ReduceFromIsJoin(parts[0], parts[1..]);
    assert [parts[0]] + parts[1..] == parts;
  }

  /** `toLowerCase` restricted to the ASCII letters A-Z. */
  function AsciiLower(c: char): (r: char)
    ensures 'A' <= c <= 'Z' ==> 'a' <= r <= 'z'
    ensures !('A' <= c <= 'Z') ==> r == c
  {
    if 'A' <= c <= 'Z' then (c as int + 32) as char else c
  }

  function Lower(s: string): (r: string)
    ensures |r| == |s|
  {
    seq(|s|, i requires 0 <= i < |s| => AsciiLower(s[i]))
  }

  /**
    The `<` of JavaScript strings: lexicographic by character, a proper prefix
    coming first.
   */
  predicate Less(a: string, b: string)
    decreases |a|
  {
    if |a| == 0 then |b| > 0
    else if |b| == 0 then false
    else if a[0] != b[0] then a[0] < b[0]
    else Less(a[1..], b[1..])
  }

  lemma {:induction false} LessIrreflexive(a: string)
    ensures !Less(a, a)
    decreases |a|
  {
    if |a| > 0 {
      LessIrreflexive(a[1..]);
    }
  }

  lemma {:induction false} LessTransitive(a: string, b: string, c: string)
    requires Less(a, b) && Less(b, c)
    ensures Less(a, c)
    decreases |a|
  {
    if |a| > 0 && |b| > 0 && |c| > 0 && a[0] == b[0] && b[0] == c[0] {
      LessTransitive(a[1..], b[1..], c[1..]);
    }
  }

  /** Two different strings are always ordered one way or the other. */
  lemma {:induction false} LessTotal(a: string, b: string)
    requires a != b
    ensures Less(a, b) || Less(b, a)
    decreases |a|
  {
    if |a| > 0 && |b| > 0 && a[0] == b[0] {
      assert a == [a[0]] + a[1..] && b == [b[0]] + b[1..];
      LessTotal(a[1..], b[1..]);
    }
  }

  function DigitChar(d: nat): (c: char)
    requires d < 10
    ensures '0' <= c <= '9' && c as int - '0' as int == d
  {
    (d + '0' as int) as char
  }

  /** A count inside a template literal: its shortest decimal form. */
  function NatToString(n: nat): (s: string)
    ensures |s| > 0 && IsDigits(s)
    ensures n > 0 ==> s[0] != '0'
    decreases n
  {
    if n < 10 then [DigitChar(n)] else NatToString(n / 10) + [DigitChar(n % 10)]
  }

  predicate IsDigits(s: string) {
    forall i :: 0 <= i < |s| ==> '0' <= s[i] <= '9'
  }

  /** Reads a string of decimal digits back as a number. */
  function DecimalValue(s: string): nat
    requires IsDigits(s)
    decreases |s|
  {
    if s == [] then 0 else DecimalValue(s[..|s| - 1]) * 10 + (s[|s| - 1] as int - '0' as int)
  }

  lemma {:induction false} NatToStringRoundTrip(n: nat)
    ensures DecimalValue(NatToString(n)) == n
    decreases n
  {
    var s := NatToString(n);
    if n >= 10 {
      NatToStringRoundTrip(n / 10);
      assert s[..|s| - 1] == NatToString(n / 10);
    }
  }
}
