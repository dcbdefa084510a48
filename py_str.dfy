/**
 * The Python `str` operations the WHOIS tool relies on, over Dafny strings
 * (sequences of Unicode scalar values):
 * - `c.isspace()` and the line boundaries of `s.splitlines()`, with Python 3's
 *   full character sets, not only ASCII;
 * - `s.strip()` with no argument, and its two halves `lstrip` / `rstrip`;
 * - `s.find(c)`, `s.split(c, 1)` for a one-character separator;
 * - `s.splitlines()` without `keepends`;
 * - the substring test `pat in s`.
 */
module PyStr {

  /** Python's `str.isspace` on one character: the characters of bidirectional
      class WS, B or S, or of general category Zs. */
  predicate IsSpace(c: char): (b: bool)
    ensures b ==> c != ':'
  {
    c == ' ' || ('\t' <= c <= '\r') || ('\U{1C}' <= c <= '\U{1F}')
    || c == '\U{85}' || c == '\U{A0}' || c == '\U{1680}'
    || ('\U{2000}' <= c <= '\U{200A}')
    || c == '\U{2028}' || c == '\U{2029}' || c == '\U{202F}' || c == '\U{205F}' || c == '\U{3000}'
  }

  /** The characters `str.splitlines` ends a line at: \n, \v, \f, \r, the file,
      group and record separators, NEL, and the Unicode line and paragraph
      separators. (\r followed by \n is one boundary.) */
  predicate IsLineBreak(c: char): (b: bool)
    ensures b ==> IsSpace(c)
  {
    ('\n' <= c <= '\r') || ('\U{1C}' <= c <= '\U{1E}')
    || c == '\U{85}' || c == '\U{2028}' || c == '\U{2029}'
  }

  ghost predicate AllSpace(s: string) {
    forall k :: 0 <= k < |s| ==> IsSpace(s[k])
  }

  ghost predicate NoLineBreak(s: string) {
    forall k :: 0 <= k < |s| ==> !IsLineBreak(s[k])
  }

  /** `s` neither starts nor ends with whitespace. */
  ghost predicate Trimmed(s: string) {
    s != [] ==> !IsSpace(s[0]) && !IsSpace(s[|s| - 1])
  }

  // ---------------------------------------------------------------- strip

  // The whitespace facts about the strip functions are stated as lemmas
  // (LStripSpec, RStripSpec, StripSpec) rather than as postconditions, so that
  // proofs about the rows, where these functions occur many times, only pay
  // for them where they are used.

  /** Python's `s.lstrip()`: `s` without its leading whitespace (see LStripSpec). */
  function LStrip(s: string): (r: string)
    ensures |r| <= |s| && r == s[|s| - |r|..]
  {
    if s != [] && IsSpace(s[0]) then LStrip(s[1..]) else s
  }

  /** `lstrip` removes a whitespace prefix, and all of it. */
  lemma {:induction false} LStripSpec(s: string)
    ensures AllSpace(s[..|s| - |LStrip(s)|])
    ensures LStrip(s) != [] ==> !IsSpace(LStrip(s)[0])
    decreases |s|
  {
    if s != [] && IsSpace(s[0]) {
      var t := s[1..];
      LStripSpec(t);
      assert LStrip(s) == LStrip(t);
      var n := |s| - |LStrip(s)|;
      ConsPrefix(s, n);
      AllSpaceConcat([s[0]], t[..n - 1]);
    }
  }

  /** Python's `s.rstrip()`: `s` without its trailing whitespace (see RStripSpec). */
  function RStrip(s: string): (r: string)
    ensures |r| <= |s| && r == s[..|r|]
  {
    if s != [] && IsSpace(s[|s| - 1]) then RStrip(s[..|s| - 1]) else s
  }

  /** `rstrip` removes a whitespace suffix, and all of it. */
  lemma {:induction false} RStripSpec(s: string)
    ensures AllSpace(s[|RStrip(s)|..])
    ensures RStrip(s) != [] ==> !IsSpace(RStrip(s)[|RStrip(s)| - 1])
    decreases |s|
  {
    if s != [] && IsSpace(s[|s| - 1]) {
      var t := s[..|s| - 1];
      RStripSpec(t);
      assert RStrip(s) == RStrip(t);
      var n := |RStrip(s)|;
      SnocSuffix(s, n);
      AllSpaceConcat(t[n..], [s[|s| - 1]]);
    }
  }

  lemma ConsPrefix(s: string, n: nat)
    requires 1 <= n <= |s|
    ensures s[..n] == [s[0]] + s[1..][..n - 1]
  {
  }

  lemma SnocSuffix(s: string, n: nat)
    requires n < |s|
    ensures s[n..] == s[..|s| - 1][n..] + [s[|s| - 1]]
  {
  }

  /** `r` is `s[i..i + |r|]` and everything around it in `s` is whitespace. */
  ghost predicate PaddedBy(s: string, r: string, i: int) {
    0 <= i <= |s| - |r| && r == s[i..i + |r|] && AllSpace(s[..i]) && AllSpace(s[i + |r|..])
  }

  /** Python's `s.strip()`: `s` without its leading and trailing whitespace (see StripSpec). */
  function Strip(s: string): (r: string)
    ensures |r| <= |s|
  {
    RStrip(LStrip(s))
  }

  /** `strip` keeps the part of `s` between a whitespace prefix and a whitespace
      suffix, and that part neither starts nor ends with whitespace; it is empty
      exactly when `s` is blank. */
  lemma StripSpec(s: string)
    ensures Trimmed(Strip(s))
    ensures Strip(s) == [] <==> AllSpace(s)
    ensures exists i :: PaddedBy(s, Strip(s), i)
  {
    var i := |s| - |LStrip(s)|;
    StripPadded(s);
    assert PaddedBy(s, Strip(s), i);
    StripTrimmed(s);
    if AllSpace(s) {
      AllSpaceLStrip(s);
    }
    if Strip(s) == [] {
      BlankPadding(s, i);
    }
  }

  lemma StripPadded(s: string)
    ensures PaddedBy(s, Strip(s), |s| - |LStrip(s)|)
  {
    var l := LStrip(s);
    var r := RStrip(l);
    LStripSpec(s);
    RStripSpec(l);
    PaddedFromParts(s, l, r, |s| - |l|);
  }

  /** Whitespace, then a suffix `l` of `s` that is `r` followed by whitespace. */
  lemma PaddedFromParts(s: string, l: string, r: string, i: nat)
    requires i <= |s| && l == s[i..] && AllSpace(s[..i])
    requires |r| <= |l| && r == l[..|r|] && AllSpace(l[|r|..])
    ensures PaddedBy(s, r, i)
  {
    assert s[i..i + |r|] == r;
    assert s[i + |r|..] == l[|r|..];
  }

  lemma StripTrimmed(s: string)
    ensures Trimmed(Strip(s))
  {
    var l := LStrip(s);
    var r := RStrip(l);
    LStripSpec(s);
    RStripSpec(l);
    if r != [] { assert r[0] == l[0]; }
  }

  /** Text made of whitespace around an empty middle is blank. */
  lemma BlankPadding(s: string, i: int)
    requires PaddedBy(s, [], i)
    ensures AllSpace(s)
  {
    assert s == s[..i] + s[i..];
    AllSpaceConcat(s[..i], s[i..]);
  }

  lemma AllSpaceConcat(a: string, b: string)
    requires AllSpace(a) && AllSpace(b)
    ensures AllSpace(a + b)
  {
    forall k | 0 <= k < |a + b| ensures IsSpace((a + b)[k]) {
      if k < |a| { assert (a + b)[k] == a[k]; } else { assert (a + b)[k] == b[k - |a|]; }
    }
  }

  /** `strip` only removes characters. */
  lemma StripKeepsOut(s: string, c: char)
    requires c !in s
    ensures c !in Strip(s)
  {
    var l := LStrip(s);
    var r := RStrip(l);
    forall k | 0 <= k < |r| ensures r[k] != c {
      assert r[k] == l[k] == s[|s| - |l| + k];
    }
  }

  /** Whitespace around `t` does not change what `strip` gives. */
  lemma StripPadding(a: string, t: string, b: string)
    requires AllSpace(a) && AllSpace(b)
    ensures Strip(a + t + b) == Strip(t)
  {
    assert a + t + b == a + (t + b);
    LStripSkipsSpace(a, t + b);
    if AllSpace(t) {
      AllSpaceConcat(t, b);
      AllSpaceLStrip(t + b);
      AllSpaceLStrip(t);
    } else {
      LStripAppend(t, b);
      RStripSkipsSpace(LStrip(t), b);
    }
  }

  /** `strip` gives the one trimmed text that whitespace pads out to `s`. */
  lemma StripUnique(s: string, a: string, m: string, b: string)
    requires s == a + m + b && AllSpace(a) && AllSpace(b) && Trimmed(m)
    ensures Strip(s) == m
  {
    StripPadding(a, m, b);
  }

  lemma AllSpaceLStrip(s: string)
    requires AllSpace(s)
    ensures LStrip(s) == []
  {
    LStripSpec(s);
  }

  lemma {:induction false} LStripSkipsSpace(a: string, t: string)
    requires AllSpace(a)
    ensures LStrip(a + t) == LStrip(t)
    decreases |a|
  {
    if a != [] {
      assert (a + t)[1..] == a[1..] + t;
      LStripSkipsSpace(a[1..], t);
    } else {
      assert a + t == t;
    }
  }

  lemma DropFirstAppend(t: string, b: string)
    requires t != []
    ensures (t + b)[0] == t[0] && (t + b)[1..] == t[1..] + b
  {
  }

  lemma NotAllSpaceTail(t: string)
    requires !AllSpace(t) && t != [] && IsSpace(t[0])
    ensures !AllSpace(t[1..])
  {
    var k :| 0 <= k < |t| && !IsSpace(t[k]);
    assert t[1..][k - 1] == t[k];
  }

  lemma {:induction false} LStripAppend(t: string, b: string)
    requires !AllSpace(t)
    ensures LStrip(t + b) == LStrip(t) + b
    decreases |t|
  {
    if IsSpace(t[0]) {
      DropFirstAppend(t, b);
      NotAllSpaceTail(t);
      LStripAppend(t[1..], b);
    }
  }

  lemma {:induction false} RStripSkipsSpace(t: string, b: string)
    requires AllSpace(b)
    ensures RStrip(t + b) == RStrip(t)
    decreases |b|
  {
    if b != [] {
      var u := t + b;
      assert u[..|u| - 1] == t + b[..|b| - 1];
      RStripSkipsSpace(t, b[..|b| - 1]);
    } else {
      assert t + b == t;
    }
  }

  // ------------------------------------------------------------ find, split

  /** Python's `s.find(c)`: the index of the first `c` in `s`, or -1. */
  function Find(s: string, c: char): (i: int)
    ensures -1 <= i < |s|
    ensures i == -1 <==> c !in s
    ensures 0 <= i ==> s[i] == c && c !in s[..i]
  {
    if s == [] then -1
    else if s[0] == c then 0
    else
      var j := Find(s[1..], c);
      if j < 0 then -1
      else
        assert s[..j + 1] == [s[0]] + s[1..][..j];
        j + 1
  }

  /** Python's `s.split(sep, 1)`: split at the first `sep` only. */
  function SplitOnce(s: string, sep: char): (parts: seq<string>)
    ensures sep !in s ==> parts == [s]
    ensures sep in s ==> |parts| == 2 && parts[0] + [sep] + parts[1] == s && sep !in parts[0]
  {
    var i := Find(s, sep);
    if i < 0 then [s]
    else
      assert s == s[..i] + [sep] + s[i + 1..];
      [s[..i], s[i + 1..]]
  }

  // ------------------------------------------------------------- substring

  /** `pat` occurs in `s` at some position. */
  ghost predicate Occurs(pat: string, s: string) {
    exists i :: OccursAt(pat, s, i)
  }

  /** `pat` occurs in `s` starting at index `i`. */
  ghost predicate OccursAt(pat: string, s: string, i: int) {
    0 <= i <= |s| - |pat| && s[i..i + |pat|] == pat
  }

  /** Python's `pat in s` on strings: a case-sensitive substring test. */
  function Contains(s: string, pat: string): (b: bool)
    ensures b <==> Occurs(pat, s)
    decreases |s|
  {
    if pat <= s then
      assert OccursAt(pat, s, 0);
      true
    else if s == [] then false
    else
      var b := Contains(s[1..], pat);
      assert b ==> Occurs(pat, s) by {
        if b {
          var i :| OccursAt(pat, s[1..], i);
          assert s[1..][i..i + |pat|] == s[i + 1..i + 1 + |pat|];
          assert OccursAt(pat, s, i + 1);
        }
      }
      assert Occurs(pat, s) ==> b by {
        if Occurs(pat, s) {
          var i :| OccursAt(pat, s, i);
          assert i != 0;
          assert s[1..][i - 1..i - 1 + |pat|] == s[i..i + |pat|];
          assert OccursAt(pat, s[1..], i - 1);
        }
      }
      b
  }

  // ------------------------------------------------------------ splitlines

  /** Index of the first line break in `s`, or `|s|` if there is none. */
  function BreakIndex(s: string): (e: nat)
    ensures e <= |s| && NoLineBreak(s[..e])
    ensures e < |s| ==> IsLineBreak(s[e])
  {
    if s == [] || IsLineBreak(s[0]) then 0
    else
      var e := BreakIndex(s[1..]);
      assert s[..e + 1] == [s[0]] + s[1..][..e];
      e + 1
  }

  /** Length of the line boundary that starts at `s[e]`: two for "\r\n", else one. */
  function BoundaryLength(s: string, e: nat): (n: nat)
    requires e < |s| && IsLineBreak(s[e])
    ensures 1 <= n <= 2 && e + n <= |s|
  {
    if s[e] == '\r' && e + 1 < |s| && s[e + 1] == '\n' then 2 else 1
  }

  /** Python's `s.splitlines()`: the lines of `s` without their boundaries; a
      final boundary does not start an empty last line, and "" has no lines. */
  function SplitLines(s: string): (lines: seq<string>)
    ensures lines == [] <==> s == []
    ensures forall k :: 0 <= k < |lines| ==> NoLineBreak(lines[k])
    decreases |s|
  {
    if s == [] then []
    else
      var e := BreakIndex(s);
      if e == |s| then
        assert s[..e] == s;
        [s]
      else
        [s[..e]] + SplitLines(s[e + BoundaryLength(s, e)..])
  }

  /** A line boundary as `splitlines(keepends=True)` would keep it. */
  ghost predicate IsBoundary(t: string) {
    t == "\r\n" || (|t| == 1 && IsLineBreak(t[0]))
  }

  /** The concatenation of every line followed by its boundary. */
  function JoinLines(lines: seq<string>, ends: seq<string>): (s: string)
    requires |lines| == |ends|
  {
    if lines == [] then [] else lines[0] + ends[0] + JoinLines(lines[1..], ends[1..])
  }

  /** Every line but the last ends at a boundary; the last one at a boundary or,
      when it is not empty, at the end of the text. */
  ghost predicate WellEnded(lines: seq<string>, ends: seq<string>)
    requires |lines| == |ends|
  {
    forall k :: 0 <= k < |ends| ==> IsBoundary(ends[k]) || (k == |ends| - 1 && ends[k] == [] && lines[k] != [])
  }

  /** A "\r" boundary is never followed by an empty line ended by "\n": that
      pair is the single boundary "\r\n". */
  ghost predicate CrLfKeptWhole(lines: seq<string>, ends: seq<string>)
    requires |lines| == |ends|
  {
    forall k :: 0 <= k < |ends| - 1 && ends[k] == "\r" ==> lines[k + 1] != [] || ends[k + 1] != "\n"
  }

  /** `splitlines` loses nothing but the boundaries: each line followed by its
      boundary gives back `s`, and the boundaries are those `splitlines` ends
      lines at. */
  lemma {:induction false} SplitLinesRoundTrip(s: string) returns (ends: seq<string>)
    ensures |ends| == |SplitLines(s)|
    ensures WellEnded(SplitLines(s), ends) && CrLfKeptWhole(SplitLines(s), ends)
    ensures JoinLines(SplitLines(s), ends) == s
    decreases |s|
  {
    if s == [] {
      ends := [];
    } else {
      var e := BreakIndex(s);
      if e == |s| {
        ends := [[]];
        assert s[..e] == s;
        assert JoinLines([s], ends) == s + [] + JoinLines([], []);
      } else {
        var n := BoundaryLength(s, e);
        var rest := s[e + n..];
        var tail := SplitLinesRoundTrip(rest);
        var t := s[e..e + n];
        ends := [t] + tail;
        SplitLinesStep(s, e, n);
        RoundTripStep(s, e, n, s[..e], t, rest, SplitLines(rest), tail);
      }
    }
  }

  /** One step of the round trip: the first line and its boundary in front of
      the lines of the rest. */
  lemma RoundTripStep(s: string, e: nat, n: nat, line: string, t: string, rest: string,
                      more: seq<string>, tail: seq<string>)
    requires e < |s| && IsLineBreak(s[e]) && n == BoundaryLength(s, e)
    requires line == s[..e] && t == s[e..e + n] && rest == s[e + n..]
    requires |tail| == |more| && WellEnded(more, tail) && CrLfKeptWhole(more, tail)
    requires JoinLines(more, tail) == rest && (more == [] <==> rest == [])
    ensures WellEnded([line] + more, [t] + tail) && CrLfKeptWhole([line] + more, [t] + tail)
    ensures JoinLines([line] + more, [t] + tail) == s
  {
    BoundaryAt(s, e);
    if t == "\r" && more != [] && more[0] == [] {
      JoinLinesHead(more, tail);
      assert rest[0] == s[e + 1] != '\n';
      assert tail[0] == [] || tail[0][0] == rest[0];
    }
    ConsLine(line, t, more, tail);
    Slices3(s, e, e + n);
  }

  lemma BoundaryAt(s: string, e: nat)
    requires e < |s| && IsLineBreak(s[e])
    ensures IsBoundary(s[e..e + BoundaryLength(s, e)])
    ensures s[e..e + BoundaryLength(s, e)] == "\r" ==> e + 1 == |s| || s[e + 1] != '\n'
  {
    var n := BoundaryLength(s, e);
    if n == 2 {
      assert s[e..e + n] == [s[e], s[e + 1]];
    } else {
      assert s[e..e + n] == [s[e]];
    }
  }

  /** `s` is its stripped text with the removed whitespace on either side. */
  lemma StripParts(s: string) returns (a: string, b: string)
    ensures s == a + (Strip(s) + b) && AllSpace(a) && AllSpace(b)
  {
    var m := Strip(s);
    var i := |s| - |LStrip(s)|;
    StripPadded(s);
    a, b := s[..i], s[i + |m|..];
    Slices3At(s, i, i + |m|, a, m, b);
  }

  /** Three consecutive slices of `s`, given by name, make up `s`. */
  lemma Slices3At(s: string, i: nat, j: nat, a: string, m: string, b: string)
    requires i <= j <= |s| && a == s[..i] && m == s[i..j] && b == s[j..]
    ensures s == a + (m + b)
  {
    Slices3(s, i, j);
    assert a + m + b == a + (m + b);
  }

  lemma Slices3(s: string, i: nat, j: nat)
    requires i <= j <= |s|
    ensures s == s[..i] + s[i..j] + s[j..]
  {
  }

  lemma SplitLinesStep(s: string, e: nat, n: nat)
    requires s != [] && e == BreakIndex(s) && e < |s| && n == BoundaryLength(s, e)
    ensures SplitLines(s) == [s[..e]] + SplitLines(s[e + n..])
  {
  }

  lemma ConsLine(line: string, t: string, lines: seq<string>, ends: seq<string>)
    requires |lines| == |ends| && IsBoundary(t)
    requires WellEnded(lines, ends) && CrLfKeptWhole(lines, ends)
    requires t == "\r" && lines != [] ==> lines[0] != [] || ends[0] != "\n"
    ensures WellEnded([line] + lines, [t] + ends) && CrLfKeptWhole([line] + lines, [t] + ends)
    ensures JoinLines([line] + lines, [t] + ends) == line + t + JoinLines(lines, ends)
  {
    var ls, es := [line] + lines, [t] + ends;
    assert ls[1..] == lines && es[1..] == ends;
    forall k | 0 <= k < |es| - 1 && es[k] == "\r"
      ensures ls[k + 1] != [] || es[k + 1] != "\n"
    {
      if k > 0 { assert es[k] == ends[k - 1] && ls[k + 1] == lines[k] && es[k + 1] == ends[k]; }
    }
    forall k | 0 <= k < |es|
      ensures IsBoundary(es[k]) || (k == |es| - 1 && es[k] == [] && ls[k] != [])
    {
      if k > 0 { assert es[k] == ends[k - 1] && ls[k] == lines[k - 1]; }
    }
  }

  /** The first line and its boundary start the joined text. */
  lemma JoinLinesHead(lines: seq<string>, ends: seq<string>)
    requires |lines| == |ends| && lines != []
    ensures lines[0] + ends[0] <= JoinLines(lines, ends)
  {
  }

  /** A text lies alone on its line until its first break: `splitlines` keeps
      a break-free text whole. */
  lemma SplitLinesSingle(s: string)
    requires s != [] && NoLineBreak(s)
    ensures SplitLines(s) == [s]
  {
    assert BreakIndex(s) == |s|;
  }

  /** A break-free text in front of `m` joins the first line of `m`. */
  lemma SplitLinesJoinFirst(w: string, m: string) returns (line: string, rest: string)
    requires NoLineBreak(w) && BreakIndex(m) < |m|
    ensures line == m[..BreakIndex(m)] && rest == m[BreakIndex(m) + BoundaryLength(m, BreakIndex(m))..]
    ensures SplitLines(w + m) == [w + line] + SplitLines(rest)
    ensures SplitLines(m) == [line] + SplitLines(rest)
  {
    var s := w + m;
    var e := BreakIndex(m);
    var n := BoundaryLength(m, e);
    BreakIndexShift(w, m);
    BoundaryShift(w, m, e);
    line, rest := m[..e], m[e + n..];
    SplitLinesStepAt(s, |w| + e, n, w + line, rest);
    SplitLinesStep(m, e, n);
  }

  /** The first line of `w` stays the first line of `w + m` unless `m` could
      pair a final "\r" of `w` into one "\r\n" boundary. */
  lemma SplitLinesSplitFirst(w: string, m: string) returns (line: string, rest: string)
    requires BreakIndex(w) < |w| && (m == [] || m[0] != '\n')
    ensures line == w[..BreakIndex(w)] && rest == w[BreakIndex(w) + BoundaryLength(w, BreakIndex(w))..]
    ensures SplitLines(w + m) == [line] + SplitLines(rest + m)
  {
    var s := w + m;
    var e := BreakIndex(w);
    BreakIndexPrefix(w, m);
    var n := BoundaryLength(w, e);
    assert s[e] == w[e];
    if e + 1 < |w| {
      assert s[e + 1] == w[e + 1];
    } else if m != [] {
      assert s[e + 1] == m[0];
    }
    assert BoundaryLength(s, e) == n;
    line, rest := w[..e], w[e + n..];
    SplitLinesStepAt(s, e, n, line, rest + m);
  }

  /** `SplitLinesStep` with the first line and the rest given by name. */
  lemma SplitLinesStepAt(s: string, e: nat, n: nat, line: string, rest: string)
    requires s != [] && e == BreakIndex(s) && e < |s| && n == BoundaryLength(s, e)
    requires line == s[..e] && rest == s[e + n..]
    ensures SplitLines(s) == [line] + SplitLines(rest)
  {
    SplitLinesStep(s, e, n);
  }

  /** A boundary keeps its length when text is put in front of it. */
  lemma BoundaryShift(w: string, m: string, e: nat)
    requires e < |m| && IsLineBreak(m[e])
    ensures IsLineBreak((w + m)[|w| + e])
    ensures BoundaryLength(w + m, |w| + e) == BoundaryLength(m, e)
  {
    var s := w + m;
    assert s[|w| + e] == m[e];
    if e + 1 < |m| { assert s[|w| + e + 1] == m[e + 1]; }
  }

  /** Where the first break lies in `w + m` when `w` has none. */
  lemma {:induction false} BreakIndexShift(w: string, m: string)
    requires NoLineBreak(w)
    ensures BreakIndex(w + m) == |w| + BreakIndex(m)
    decreases |w|
  {
    if w == [] {
      assert w + m == m;
    } else {
      assert (w + m)[0] == w[0] && (w + m)[1..] == w[1..] + m;
      BreakIndexShift(w[1..], m);
    }
  }

  /** Where the first break lies in `w + m` when `w` has one. */
  lemma {:induction false} BreakIndexPrefix(w: string, m: string)
    requires BreakIndex(w) < |w|
    ensures BreakIndex(w + m) == BreakIndex(w)
    decreases |w|
  {
    if !IsLineBreak(w[0]) {
      assert (w + m)[0] == w[0] && (w + m)[1..] == w[1..] + m;
      BreakIndexPrefix(w[1..], m);
    }
  }

  /** The first occurrence of a separator is where it is: two splits of one
      text at a first `c` are the same split. */
  lemma FirstSeparatorUnique(x: string, y: string, u: string, v: string, c: char)
    requires x + [c] + y == u + [c] + v && c !in x && c !in u
    ensures x == u && y == v
  {
    var s := x + [c] + y;
    assert forall k :: 0 <= k < |x| ==> s[k] == x[k];
    assert forall k :: 0 <= k < |u| ==> s[k] == u[k];
    assert s[|x|] == c && s[|u|] == c;
    assert |x| == |u|;
    assert x == s[..|x|] && u == s[..|u|];
    assert y == s[|x| + 1..] && v == s[|u| + 1..];
  }

  /** For a one-character pattern, Python's substring test `c in s` is
      membership of the character. */
  lemma CharOccurs(c: char, s: string)
    ensures c in s <==> Occurs([c], s)
  {
    if c in s {
      var k :| 0 <= k < |s| && s[k] == c;
      assert s[k..k + 1] == [c];
      assert OccursAt([c], s, k);
    }
    if Occurs([c], s) {
      var i :| OccursAt([c], s, i);
      assert s[i] == s[i..i + 1][0];
    }
  }
}
