/** Java string operations the synchroniser relies on: `String.contains` and
    `String.replace(CharSequence, CharSequence)`. */
module Strings {

  /** `t` is a prefix of `s`. */
  predicate StartsWith(s: string, t: string) {
    |t| <= |s| && s[..|t|] == t
  }

  /** `s.contains(t)`: `t` occurs in `s` at some position. */
  predicate Contains(s: string, t: string) {
    exists i :: 0 <= i <= |s| && StartsWith(s[i..], t)
  }

  /** `s.replace(t, r)`: every non-overlapping occurrence of `t`, found from left to
      right, is replaced by `r`; an empty `t` puts `r` before every character and at the end. */
  function ReplaceAll(s: string, t: string, r: string): string
    decreases |s|
  {
    if |t| == 0 then
      (if s == [] then r else r + [s[0]] + ReplaceAll(s[1..], t, r))
    else if StartsWith(s, t) then r + ReplaceAll(s[|t|..], t, r)
    else if s == [] then []
    else [s[0]] + ReplaceAll(s[1..], t, r)
  }

  lemma ContainsTail(s: string, t: string)
    requires |s| > 0 && Contains(s[1..], t)
    ensures Contains(s, t)
  {
    var i :| 0 <= i <= |s[1..]| && StartsWith(s[1..][i..], t);
    assert s[1..][i..] == s[i + 1..];
  }

  lemma ContainsAt(s: string, t: string, i: nat)
    requires i <= |s| && StartsWith(s[i..], t)
    ensures Contains(s, t)
  {
  }

  /** Occurrences in a piece are occurrences in the whole. */
  lemma {:induction false} ContainsInfix(a: string, b: string, c: string, t: string)
    requires Contains(b, t)
    ensures Contains(a + b + c, t)
  {
    var i :| 0 <= i <= |b| && StartsWith(b[i..], t);
    var s := a + b + c;
    assert s[|a| + i..][..|t|] == b[i..][..|t|];
    ContainsAt(s, t, |a| + i);
  }

  /** Replacing a string that does not occur changes nothing. */
  lemma {:induction false} ReplaceAllAbsent(s: string, t: string, r: string)
    requires |t| > 0 && !Contains(s, t)
    ensures ReplaceAll(s, t, r) == s
    decreases |s|
  {
    if s != [] {
      assert !StartsWith(s, t) by { assert s[0..] == s; }
      if Contains(s[1..], t) { ContainsTail(s, t); }
      ReplaceAllAbsent(s[1..], t, r);
    }
  }

  /** A leading occurrence is replaced and scanning resumes after it. */
  lemma ReplaceAllLeading(t: string, rest: string, r: string)
    requires |t| > 0
    ensures ReplaceAll(t + rest, t, r) == r + ReplaceAll(rest, t, r)
  {
    assert (t + rest)[..|t|] == t;
    assert (t + rest)[|t|..] == rest;
  }

  /** Stripping a leading `t` from `t + rest`, when `t` does not occur in `rest`,
      leaves exactly `rest`; replacing it by `r` gives `r + rest`. */
  lemma ReplaceLeadingOnly(t: string, rest: string, r: string)
    requires |t| > 0 && !Contains(rest, t)
    ensures ReplaceAll(t + rest, t, r) == r + rest
  {
    ReplaceAllLeading(t, rest, r);
    ReplaceAllAbsent(rest, t, r);
  }
}
