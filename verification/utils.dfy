/**
 * Arrival-time parsing (src/utils.py, `_parse_time`).
 *
 * The source applies the regular expression `(\d\d):(\d\d):(\d\d)` to each
 * string with search semantics (the leftmost match wins, anything around it
 * is ignored), converts the three captured groups to integers and returns
 * `H * HOUR + M * MINUTE + S * SECOND`. There is no range check and no
 * wrap-around past midnight. A string without a match yields NaN, on which
 * `astype(int)` raises; that error is `None` here.
 */
module Utils {
  import opened Wrappers
  import opened Naming

  /** The largest value a match can produce: "99:99:99". */
  const MAX_SECONDS: int := 99 * HOUR + 99 * MINUTE + 99 * SECOND

  /** A character matched by `\d` (ASCII digits; see README). */
  predicate IsDigit(c: char) {
    '0' <= c <= '9'
  }

  function DigitValue(c: char): (d: nat)
    requires IsDigit(c)
    ensures d < 10
  {
    (c as int) - ('0' as int)
  }

  /** The pattern `\d\d:\d\d:\d\d` matches the eight characters of `s` that start at `i`. */
  predicate MatchesAt(s: string, i: nat) {
    && i + 8 <= |s|
    && IsDigit(s[i]) && IsDigit(s[i + 1]) && s[i + 2] == ':'
    && IsDigit(s[i + 3]) && IsDigit(s[i + 4]) && s[i + 5] == ':'
    && IsDigit(s[i + 6]) && IsDigit(s[i + 7])
  }

  /** The integer value of the two-digit group at `i`. */
  function GroupValue(s: string, i: nat): (v: nat)
    requires i + 2 <= |s| && IsDigit(s[i]) && IsDigit(s[i + 1])
    ensures v < 100
  {
    10 * DigitValue(s[i]) + DigitValue(s[i + 1])
  }

  /** The leftmost position at or after `from` where the pattern matches (regex search). */
  function Search(s: string, from: nat): (r: Option<nat>)
    ensures r.Some? ==> from <= r.value && MatchesAt(s, r.value)
    decreases |s| - from
  {
    if |s| < from + 8 then None
    else if MatchesAt(s, from) then Some(from)
    else Search(s, from + 1)
  }

  /** Search finds the leftmost match, and finds one whenever there is one. */
  lemma {:induction false} SearchSpec(s: string, from: nat)
    ensures Search(s, from).Some? ==> forall j :: from <= j < Search(s, from).value ==> !MatchesAt(s, j)
    ensures Search(s, from).None? ==> forall j :: from <= j ==> !MatchesAt(s, j)
    decreases |s| - from
  {
    if |s| >= from + 8 && !MatchesAt(s, from) {
      SearchSpec(s, from + 1);
    }
  }

  /** Hours, minutes and seconds as captured, each in 0..99. */
  datatype Clock = Clock(h: nat, m: nat, s: nat)

  /** `str.extract`: the three groups of the leftmost match, if there is one. */
  function Extract(s: string): (r: Option<Clock>)
    ensures r.Some? <==> Search(s, 0).Some?
    ensures r.Some? ==> r.value.h < 100 && r.value.m < 100 && r.value.s < 100
  {
    match Search(s, 0)
    case None => None
    case Some(i) => Some(Clock(GroupValue(s, i), GroupValue(s, i + 3), GroupValue(s, i + 6)))
  }

  function Seconds(c: Clock): int {
    c.h * HOUR + c.m * MINUTE + c.s * SECOND
  }

  /** `_parse_time` on one string. */
  function ParseTime(s: string): Option<int> {
    match Extract(s)
    case None => None
    case Some(c) => Some(Seconds(c))
  }

  /** A string parses exactly when the pattern occurs in it. */
  lemma ParseTimeDefined(s: string)
    ensures ParseTime(s).Some? <==> exists i: nat :: MatchesAt(s, i)
  {
    SearchSpec(s, 0);
  }

  /** Three groups below 100 give at most MAX_SECONDS. */
  lemma SecondsRange(c: Clock)
    requires c.h < 100 && c.m < 100 && c.s < 100
    ensures 0 <= Seconds(c) <= MAX_SECONDS
  {
  }

  /** A parsed time lies in 0..MAX_SECONDS: each group is below 100 and nothing is checked further. */
  lemma ParseTimeRange(s: string)
    ensures ParseTime(s).Some? ==> 0 <= ParseTime(s).value <= MAX_SECONDS
  {
  }

  /**
   * `_parse_time` on a whole column: `astype(int)` raises as soon as one
   * entry failed to match, so one bad entry fails the whole column.
   */
  function ParseTimes(column: seq<string>): (r: Option<seq<int>>)
    ensures r.Some? ==> |r.value| == |column|
  {
    if |column| == 0 then Some([])
    else
      match ParseTimes(column[..|column| - 1])
      case None => None
      case Some(init) =>
        match ParseTime(column[|column| - 1])
        case None => None
        case Some(t) => Some(init + [t])
  }

  /** The column parses exactly when every entry does, and then entry by entry. */
  lemma {:induction false} ParseTimesSpec(column: seq<string>)
    ensures ParseTimes(column).Some? <==> forall i :: 0 <= i < |column| ==> ParseTime(column[i]).Some?
    ensures ParseTimes(column).Some? ==>
              forall i :: 0 <= i < |column| ==> ParseTime(column[i]) == Some(ParseTimes(column).value[i])
  {
    if |column| > 0 {
      var init := column[..|column| - 1];
      ParseTimesSpec(init);
      assert forall i :: 0 <= i < |init| ==> init[i] == column[i];
    }
  }

  /** The result is computed from the LEFTMOST match's three groups. */
  lemma ParseTimeLeftmost(s: string, i: nat)
    requires MatchesAt(s, i)
    requires forall j :: 0 <= j < i ==> !MatchesAt(s, j)
    ensures ParseTime(s) == Some(GroupValue(s, i) * 3600 + GroupValue(s, i + 3) * 60 + GroupValue(s, i + 6))
  {
    SearchSpec(s, 0);
  }

  /** Hours past 24 and minutes past 59 are accepted as they are. */
  lemma ParseTimeUnchecked()
    ensures ParseTime("08:00:00") == Some(28800)
    ensures ParseTime("25:10:00") == Some(90600)
    ensures ParseTime("08:75:00") == Some(8 * 3600 + 75 * 60)
  {
  }

  /** A match anywhere in the string is used; e.g. the leading "1" of "108:00:00" is skipped. */
  lemma ParseTimeSearches()
    ensures ParseTime("108:00:00") == Some(28800)
    ensures ParseTime("arr 07:30:15 h") == Some(27015)
  {
    assert !MatchesAt("108:00:00", 0) && MatchesAt("108:00:00", 1);
    assert MatchesAt("arr 07:30:15 h", 4);
    assert forall j :: 0 <= j < 4 ==> !MatchesAt("arr 07:30:15 h", j);
  }

  /** Single-digit hours and the empty string do not match, so they do not parse. */
  lemma ParseTimeRejects()
    ensures ParseTime("8:00:00") == None
    ensures ParseTime("") == None
  {
  }

  /** Two-digit zero-padded rendering, the inverse of GroupValue. */
  function DigitChar(d: nat): (c: char)
    requires d < 10
    ensures IsDigit(c) && DigitValue(c) == d
  {
    ((('0' as int) + d) as char)
  }

  function TwoDigits(n: nat): (s: string)
    requires n < 100
  {
    [DigitChar(n / 10), DigitChar(n % 10)]
  }

  /** The `HH:MM:SS` rendering of a clock whose fields are below 100. */
  function Format(c: Clock): string
    requires c.h < 100 && c.m < 100 && c.s < 100
  {
    TwoDigits(c.h) + ":" + TwoDigits(c.m) + ":" + TwoDigits(c.s)
  }

  /** Parsing inverts formatting, with hours, minutes and seconds unchecked. */
  lemma ParseFormat(c: Clock)
    requires c.h < 100 && c.m < 100 && c.s < 100
    ensures ParseTime(Format(c)) == Some(c.h * 3600 + c.m * 60 + c.s)
  {
  }

  predicate ClockLess(a: Clock, b: Clock) {
    a.h < b.h || (a.h == b.h && (a.m < b.m || (a.m == b.m && a.s < b.s)))
  }

  /** For well-formed clocks (minutes and seconds below 60) lexicographic order is numeric order. */
  lemma SecondsMonotone(a: Clock, b: Clock)
    requires a.m < 60 && a.s < 60 && b.m < 60 && b.s < 60
    ensures ClockLess(a, b) <==> Seconds(a) < Seconds(b)
    ensures a == b <==> Seconds(a) == Seconds(b)
  {
  }
}
