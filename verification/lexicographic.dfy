/**
 * Python's ordering of `str` values (code point by code point, a proper
 * prefix first), which pandas uses to sort group keys, and its extension
 * to pairs of strings.
 */
module Lexicographic {

  predicate StrLess(a: string, b: string)
    decreases |a|
  {
    if |a| == 0 then |b| > 0
    else if |b| == 0 then false
    else if a[0] != b[0] then a[0] < b[0]
    else StrLess(a[1..], b[1..])
  }

  lemma {:induction false} StrLessIrreflexive(a: string)
    ensures !StrLess(a, a)
    decreases |a|
  {
    if |a| > 0 {
      StrLessIrreflexive(a[1..]);
    }
  }

  lemma {:induction false} StrLessTransitive(a: string, b: string, c: string)
    requires StrLess(a, b) && StrLess(b, c)
    ensures StrLess(a, c)
    decreases |a|
  {
    if |a| > 0 && a[0] == b[0] && b[0] == c[0] {
      StrLessTransitive(a[1..], b[1..], c[1..]);
    }
  }

  lemma {:induction false} StrLessTotal(a: string, b: string)
    requires a != b
    ensures StrLess(a, b) || StrLess(b, a)
    decreases |a|
  {
    if |a| > 0 && |b| > 0 && a[0] == b[0] {
      assert a == [a[0]] + a[1..] && b == [b[0]] + b[1..];
      StrLessTotal(a[1..], b[1..]);
    }
  }

  /** The order of pandas' sorted two-level group keys. */
  predicate PairLess(a: (string, string), b: (string, string)) {
    StrLess(a.0, b.0) || (a.0 == b.0 && StrLess(a.1, b.1))
  }

  /** PairLess is a strict total order. */
  lemma PairLessStrictTotal(a: (string, string), b: (string, string), c: (string, string))
    ensures !PairLess(a, a)
    ensures PairLess(a, b) && PairLess(b, c) ==> PairLess(a, c)
    ensures a != b ==> PairLess(a, b) || PairLess(b, a)
  {
    StrLessIrreflexive(a.0);
    StrLessIrreflexive(a.1);
    if PairLess(a, b) && PairLess(b, c) {
      if StrLess(a.0, b.0) && StrLess(b.0, c.0) { StrLessTransitive(a.0, b.0, c.0); }
      if StrLess(a.1, b.1) && StrLess(b.1, c.1) { StrLessTransitive(a.1, b.1, c.1); }
    }
    if a != b {
      if a.0 != b.0 { StrLessTotal(a.0, b.0); } else { StrLessTotal(a.1, b.1); }
    }
  }
}
