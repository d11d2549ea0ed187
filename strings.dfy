/**
 The few operations on Python `str` values that the paper pipeline relies on:
 `isspace`/`strip`, `startswith`/`endswith`, the substring test `in`,
 `replace`, `rfind`, `split(sep)[-1]` and `sep.join(...)`. Strings are sequences of
 characters; no Unicode normalisation or case folding is involved.
 */
module Strings {

  /** Python's `str.isspace` on one character: the ASCII whitespace and
      information-separator controls, NEL, and the Unicode space and
      line/paragraph separators. */
  predicate IsSpace(c: char) {
    || c == ' '
    || ('\t' <= c <= '\r')
    || ('\U{1c}' <= c <= '\U{1f}')
    || c == '\U{85}' || c == '\U{a0}' || c == '\U{1680}'
    || ('\U{2000}' <= c <= '\U{200a}')
    || c == '\U{2028}' || c == '\U{2029}' || c == '\U{202f}' || c == '\U{205f}' || c == '\U{3000}'
  }

  predicate AllSpace(s: string) {
    forall i :: 0 <= i < |s| ==> IsSpace(s[i])
  }

  /** Neither end of `s` is whitespace (an empty string qualifies). */
  predicate Trimmed(s: string) {
    s == [] || (!IsSpace(s[0]) && !IsSpace(s[|s| - 1]))
  }

  /** `s.lstrip()`: `s` without its leading whitespace. */
  function LStrip(s: string): (r: string)
    ensures |r| <= |s|
    ensures r == [] || !IsSpace(r[0])
  {
    if s != [] && IsSpace(s[0]) then LStrip(s[1..]) else s
  }

  /** `s.rstrip()`: `s` without its trailing whitespace. */
  function RStrip(s: string): (r: string)
    ensures |r| <= |s| && r == s[..|r|]
    ensures r == [] || !IsSpace(r[|r| - 1])
  {
    if s != [] && IsSpace(s[|s| - 1]) then RStrip(s[..|s| - 1]) else s
  }

  /** `s.strip()` with no argument. */
  function Strip(s: string): (r: string)
    ensures |r| <= |s|
    ensures Trimmed(r)
  {
    RStrip(LStrip(s))
  }

  /** What `lstrip` drops is a whitespace prefix. */
  lemma {:induction false} LStripSpan(s: string)
    ensures LStrip(s) == s[|s| - |LStrip(s)|..]
    ensures AllSpace(s[..|s| - |LStrip(s)|])
  {
    if s != [] && IsSpace(s[0]) {
      var r := LStrip(s[1..]);
      LStripSpan(s[1..]);
      assert s[1..][|s| - 1 - |r|..] == s[|s| - |r|..];
      assert s[..|s| - |r|] == [s[0]] + s[1..][..|s| - 1 - |r|];
    }
  }

  /** What `rstrip` drops is a whitespace suffix. */
  lemma {:induction false} RStripSpan(s: string)
    ensures AllSpace(s[|RStrip(s)|..])
  {
    if s != [] && IsSpace(s[|s| - 1]) {
      var r := RStrip(s[..|s| - 1]);
      RStripSpan(s[..|s| - 1]);
      assert s[|r|..] == s[..|s| - 1][|r|..] + [s[|s| - 1]];
    }
  }

  lemma {:induction false} LStripSpacePrefix(a: string, t: string)
    requires AllSpace(a)
    requires t == [] || !IsSpace(t[0])
    ensures LStrip(a + t) == t
    decreases |a|
  {
    if a != [] {
      assert (a + t)[1..] == a[1..] + t;
      LStripSpacePrefix(a[1..], t);
    } else {
      assert a + t == t;
    }
  }

  lemma {:induction false} RStripSpaceSuffix(t: string, b: string)
    requires AllSpace(b)
    requires t == [] || !IsSpace(t[|t| - 1])
    ensures RStrip(t + b) == t
    decreases |b|
  {
    if b != [] {
      assert (t + b)[..|t + b| - 1] == t + b[..|b| - 1];
      RStripSpaceSuffix(t, b[..|b| - 1]);
    } else {
      assert t + b == t;
    }
  }

  /** `strip` is characterised by the split of `s` into leading whitespace,
      a trimmed middle and trailing whitespace: the middle is the result. */
  lemma StripUnique(a: string, m: string, b: string)
    requires AllSpace(a) && AllSpace(b) && Trimmed(m)
    ensures Strip(a + m + b) == m
  {
    if m == [] {
      assert a + m + b == a + b;
      assert AllSpace(a + b);
      LStripSpacePrefix(a + b, []);
      assert a + b + [] == a + b;
    } else {
      assert a + m + b == a + (m + b);
      LStripSpacePrefix(a, m + b);
      RStripSpaceSuffix(m, b);
    }
  }

  /** A string made only of whitespace strips to the empty string. */
  lemma StripAllSpace(s: string)
    requires AllSpace(s)
    ensures Strip(s) == ""
  {
    StripUnique(s, "", "");
    assert s + "" + "" == s;
  }

  /** A trimmed string is its own `strip()`. */
  lemma StripTrimmed(s: string)
    requires Trimmed(s)
    ensures Strip(s) == s
  {
    StripUnique("", s, "");
    assert "" + s + "" == s;
  }

  /** Stripping twice is the same as stripping once. */
  lemma StripIdempotent(s: string)
    ensures Strip(Strip(s)) == Strip(s)
  {
    var m := Strip(s);
    StripUnique("", m, "");
    assert "" + m + "" == m;
  }

  predicate StartsWith(s: string, prefix: string) {
    |prefix| <= |s| && s[..|prefix|] == prefix
  }

  predicate EndsWith(s: string, suffix: string) {
    |suffix| <= |s| && s[|s| - |suffix|..] == suffix
  }

  /** `pat` occurs in `s` starting at index `i`. */
  predicate MatchAt(s: string, pat: string, i: nat) {
    i + |pat| <= |s| && s[i..i + |pat|] == pat
  }

  /** Python's substring test `pat in s`. */
  predicate Contains(s: string, pat: string) {
    exists i: nat :: i <= |s| && MatchAt(s, pat, i)
  }

  /** `s.replace(pat, rep)`: every occurrence of `pat`, found left to right
      without overlap, is replaced by `rep`. */
  function ReplaceAll(s: string, pat: string, rep: string): (r: string)
    requires pat != ""
    ensures |pat| == |rep| ==> |r| == |s|
    decreases |s|
  {
    if |s| < |pat| then s
    else if s[..|pat|] == pat then rep + ReplaceAll(s[|pat|..], pat, rep)
    else [s[0]] + ReplaceAll(s[1..], pat, rep)
  }

  /** A string without an occurrence of `pat` is left unchanged by `replace`. */
  lemma {:induction false} ReplaceAllNoMatch(s: string, pat: string, rep: string)
    requires pat != ""
    requires !Contains(s, pat)
    ensures ReplaceAll(s, pat, rep) == s
    decreases |s|
  {
    if |s| >= |pat| {
      assert !MatchAt(s, pat, 0);
      assert !Contains(s[1..], pat) by {
        forall i: nat | MatchAt(s[1..], pat, i) ensures MatchAt(s, pat, i + 1) {
          assert s[i + 1..i + 1 + |pat|] == s[1..][i..i + |pat|];
        }
      }
      ReplaceAllNoMatch(s[1..], pat, rep);
    }
  }

  /** Dropping the first character of `s` shifts every match one place left. */
  lemma MatchAtTail(s: string, pat: string, i: nat)
    requires s != []
    ensures MatchAt(s[1..], pat, i) <==> MatchAt(s, pat, i + 1)
  {
    if i + |pat| <= |s[1..]| {
      var a, b := s[i + 1..i + 1 + |pat|], s[1..][i..i + |pat|];
      assert |a| == |b|;
      assert forall k :: 0 <= k < |a| ==> a[k] == s[i + 1 + k] == b[k];
      assert a == b;
    }
  }

  /** `replace` on a string that starts with `pat`. */
  lemma ReplaceAllAtMatch(pat: string, q: string, rep: string)
    requires pat != ""
    ensures ReplaceAll(pat + q, pat, rep) == rep + ReplaceAll(q, pat, rep)
  {
    var s := pat + q;
    assert s[..|pat|] == pat;
    assert s[|pat|..] == q;
  }

  /** `replace` copies a first character that does not start a match. */
  lemma ReplaceAllSkip(c: char, t: string, pat: string, rep: string)
    requires pat != ""
    requires !MatchAt([c] + t, pat, 0)
    requires |pat| <= |[c] + t|
    ensures ReplaceAll([c] + t, pat, rep) == [c] + ReplaceAll(t, pat, rep)
  {
    assert ([c] + t)[1..] == t;
  }

  /** When the first occurrence of `pat` in `p + pat + q` is the one right
      after `p`, `replace` keeps `p`, substitutes that occurrence and goes on
      with `q`. */
  lemma {:induction false} ReplaceAllFirstMatch(p: string, pat: string, q: string, rep: string)
    requires pat != ""
    requires forall i: nat :: i < |p| ==> !MatchAt(p + pat + q, pat, i)
    ensures ReplaceAll(p + pat + q, pat, rep) == p + rep + ReplaceAll(q, pat, rep)
    decreases |p|
  {
    if p == [] {
      assert p + pat + q == pat + q;
      ReplaceAllAtMatch(pat, q, rep);
    } else {
      var s := p + pat + q;
      var t := p[1..];
      assert s == [p[0]] + (t + pat + q);
      forall i: nat | i < |t| ensures !MatchAt(t + pat + q, pat, i) {
        MatchAtTail(s, pat, i);
      }
      ReplaceAllFirstMatch(t, pat, q, rep);
      ReplaceAllSkip(p[0], t + pat + q, pat, rep);
      assert p + rep + ReplaceAll(q, pat, rep) == [p[0]] + (t + rep + ReplaceAll(q, pat, rep));
    }
  }

  /** `c not in s`. */
  predicate Free(s: string, c: char) {
    forall j :: 0 <= j < |s| ==> s[j] != c
  }

  /** `s.split(sep)[-1]`: the part of `s` after its last `sep`, or all of `s`
      when it has none. The result is the longest `sep`-free suffix of `s`. */
  function LastSegment(s: string, sep: char): (r: string)
    ensures Free(r, sep) && |r| <= |s|
  {
    if s == [] then []
    else if s[|s| - 1] == sep then []
    else
      var r := LastSegment(s[..|s| - 1], sep);
      assert (r + [s[|s| - 1]])[..|r|] == r;
      r + [s[|s| - 1]]
  }

  /** The last segment is a suffix of `s`, and either all of `s` or
      preceded by a separator. */
  lemma {:induction false} LastSegmentIsSuffix(s: string, sep: char)
    ensures LastSegment(s, sep) == s[|s| - |LastSegment(s, sep)|..]
    ensures |LastSegment(s, sep)| < |s| ==> s[|s| - |LastSegment(s, sep)| - 1] == sep
  {
    if s != [] && s[|s| - 1] != sep {
      var t := s[..|s| - 1];
      var r := LastSegment(t, sep);
      LastSegmentIsSuffix(t, sep);
      assert LastSegment(s, sep) == r + [s[|s| - 1]];
      assert s[|s| - |r| - 1..] == t[|t| - |r|..] + [s[|s| - 1]];
      if |r| < |t| {
        assert s[|s| - |r| - 2] == t[|t| - |r| - 1];
      }
    }
  }

  /** `s.find(c)`: the index of the first `c` in `s`, or -1. */
  function FindChar(s: string, c: char): (k: int)
    ensures -1 <= k < |s|
    ensures k >= 0 ==> s[k] == c
    ensures forall j :: 0 <= j < |s| && (k < 0 || j < k) ==> s[j] != c
  {
    if s == [] then -1
    else if s[0] == c then 0
    else
      var k := FindChar(s[1..], c);
      if k < 0 then -1 else k + 1
  }

  /** Index of the last `c` in `s`, or -1: `str.rfind`. */
  function RFind(s: string, c: char): (i: int)
    ensures -1 <= i < |s|
    ensures i >= 0 ==> s[i] == c
    ensures c !in s[i + 1..]
  {
    if s == [] then -1
    else if s[|s| - 1] == c then |s| - 1
    else RFind(s[..|s| - 1], c)
  }

  /** `s.split(sep)` for a one-character separator, cutting at each `sep`
      from the left: a reference definition for `LastSegment`. */
  function Split(s: string, sep: char): (parts: seq<string>)
    ensures |parts| >= 1
    decreases |s|
  {
    var k := FindChar(s, sep);
    if k < 0 then [s]
    else [s[..k]] + Split(s[k + 1..], sep)
  }

  lemma {:induction false} LastSegmentNoSep(s: string, sep: char)
    requires Free(s, sep)
    ensures LastSegment(s, sep) == s
  {
    if s != [] {
      LastSegmentNoSep(s[..|s| - 1], sep);
      assert s == s[..|s| - 1] + [s[|s| - 1]];
    }
  }

  lemma {:induction false} LastSegmentAfterSep(a: string, sep: char, b: string)
    ensures LastSegment(a + [sep] + b, sep) == LastSegment(b, sep)
    decreases |b|
  {
    var s := a + [sep] + b;
    if b == [] {
      assert s[|s| - 1] == sep;
    } else {
      assert s[..|s| - 1] == a + [sep] + b[..|b| - 1];
      LastSegmentAfterSep(a, sep, b[..|b| - 1]);
    }
  }

  /** Splitting at a first separator after a separator-free `a`. */
  lemma SplitFirst(a: string, sep: char, rest: string)
    requires Free(a, sep)
    ensures Split(a + [sep] + rest, sep) == [a] + Split(rest, sep)
  {
    var s := a + [sep] + rest;
    assert s[|a|] == sep;
    assert forall j :: 0 <= j < |a| ==> s[j] == a[j];
    assert FindChar(s, sep) == |a|;
    assert s[..|a|] == a && s[|a| + 1..] == rest;
  }

  /** The last piece of `split` is exactly `LastSegment`. */
  lemma {:induction false} LastSegmentIsLastSplit(s: string, sep: char)
    ensures Split(s, sep)[|Split(s, sep)| - 1] == LastSegment(s, sep)
    decreases |s|
  {
    var k := FindChar(s, sep);
    if k < 0 {
      assert Split(s, sep) == [s];
      LastSegmentNoSep(s, sep);
    } else {
      var a, rest := s[..k], s[k + 1..];
      assert Free(a, sep) by {
        forall j | 0 <= j < |a|
          ensures a[j] != sep
        {
          assert a[j] == s[j];
        }
      }
      assert s == a + [sep] + rest;
      SplitFirst(a, sep, rest);
      LastSegmentAfterSep(a, sep, rest);
      LastSegmentIsLastSplit(rest, sep);
      LastOfCons(a, Split(rest, sep));
    }
  }

  lemma LastOfCons(x: string, xs: seq<string>)
    requires xs != []
    ensures ([x] + xs)[|[x] + xs| - 1] == xs[|xs| - 1]
  {
  }

  /** `sep.join(xs)`. */
  function Join(sep: string, xs: seq<string>): string {
    if xs == [] then ""
    else if |xs| == 1 then xs[0]
    else xs[0] + sep + Join(sep, xs[1..])
  }

  /** Sum of the lengths of `xs`. */
  function TotalLength(xs: seq<string>): nat {
    if xs == [] then 0 else |xs[0]| + TotalLength(xs[1..])
  }

  /** A join is as long as its pieces plus one separator between each pair. */
  lemma {:induction false} JoinLength(sep: string, xs: seq<string>)
    requires xs != []
    ensures |Join(sep, xs)| == TotalLength(xs) + (|xs| - 1) * |sep|
  {
    if |xs| > 1 {
      JoinLength(sep, xs[1..]);
      assert (|xs| - 1) * |sep| == (|xs| - 2) * |sep| + |sep|;
    }
  }

  /** Joining two non-empty lists puts one separator between their joins. */
  lemma {:induction false} JoinAppend(sep: string, xs: seq<string>, ys: seq<string>)
    requires xs != [] && ys != []
    ensures Join(sep, xs + ys) == Join(sep, xs) + sep + Join(sep, ys)
  {
    if |xs| == 1 {
      assert (xs + ys)[1..] == ys;
    } else {
      assert (xs + ys)[1..] == xs[1..] + ys;
      JoinAppend(sep, xs[1..], ys);
    }
  }
}
