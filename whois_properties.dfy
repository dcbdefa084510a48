/**
 * What the WHOIS tool promises about the rows it shows and about when it shows
 * none, proved about the model in WhoisLookup.
 */
module WhoisProperties {
  import opened Wrappers
  import opened PyStr
  import opened WhoisLookup

  // ------------------------------------------------------------ one line

  /** A line is split at its first colon only: the key is the stripped text
      before it, the value the stripped text after it, later colons included.
      The "N/A" fallback is never taken. */
  lemma ParseRowAtFirstColon(line: string, before: string, after: string)
    requires line == before + [':'] + after && ':' !in before
    ensures ParseRow(line) == Row(Strip(before), Strip(after))
  {
    assert ':' in line by { assert line[|before|] == ':'; }
    var parts := SplitOnce(line, ':');
    FirstSeparatorUnique(parts[0], parts[1], before, after, ':');
  }

  /** Whitespace in front of a line changes neither its key nor its value. */
  lemma ParseRowPaddedFront(w: string, line: string)
    requires AllSpace(w) && ':' in line
    ensures ':' in w + line && ParseRow(w + line) == ParseRow(line)
  {
    var parts := SplitOnce(line, ':');
    var before, after := parts[0], parts[1];
    ParseRowAtFirstColon(line, before, after);
    NoColonInSpace(w);
    Regroup(w, before, after);
    ParseRowAtFirstColon(w + line, w + before, after);
    StripPadding(w, before, []);
  }

  /** Whitespace behind a line changes neither its key nor its value. */
  lemma ParseRowPaddedBack(line: string, w: string)
    requires AllSpace(w) && ':' in line
    ensures ':' in line + w && ParseRow(line + w) == ParseRow(line)
  {
    var parts := SplitOnce(line, ':');
    var before, after := parts[0], parts[1];
    ParseRowAtFirstColon(line, before, after);
    Regroup(before, after, w);
    ParseRowAtFirstColon(line + w, before, after + w);
    StripPadding([], after, w);
  }

  /** Moving padding across a split line. */
  lemma Regroup(a: string, b: string, c: string)
    ensures a + (b + [':'] + c) == (a + b) + [':'] + c
    ensures (a + [':'] + b) + c == a + [':'] + (b + c)
    ensures [] + b + c == b + c && a + b + [] == a + b
  {
  }

  // ------------------------------------------------------------ all lines

  /** The loop over a concatenation is the loop over each part in turn. */
  lemma {:induction false} RowsOfAppend(a: seq<string>, b: seq<string>)
    ensures RowsOf(a + b) == RowsOf(a) + RowsOf(b)
    decreases |b|
  {
    if b == [] {
      assert a + b == a;
    } else {
      DropLastAppend(a, b);
      RowsOfAppend(a, b[..|b| - 1]);
    }
  }

  lemma DropLastAppend<T>(a: seq<T>, b: seq<T>)
    requires b != []
    ensures (a + b)[..|a + b| - 1] == a + b[..|b| - 1] && (a + b)[|a + b| - 1] == b[|b| - 1]
  {
  }

  /** The first line gives the first row, if it holds a colon. */
  lemma RowsOfCons(line: string, lines: seq<string>)
    ensures RowsOf([line] + lines) == (if ':' in line then [ParseRow(line)] else []) + RowsOf(lines)
  {
    RowsOfAppend([line], lines);
    assert [line][..0] == [];
  }

  /** The number of lines that hold at least one colon. */
  function ColonLineCount(lines: seq<string>): nat {
    if lines == [] then 0
    else (if ':' in lines[0] then 1 else 0) + ColonLineCount(lines[1..])
  }

  /** One row per line that holds a colon, and no other rows. */
  lemma {:induction false} RowCount(lines: seq<string>)
    ensures |RowsOf(lines)| == ColonLineCount(lines)
    decreases |lines|
  {
    if lines != [] {
      assert lines == [lines[0]] + lines[1..];
      RowsOfCons(lines[0], lines[1..]);
      RowCount(lines[1..]);
    }
  }

  /** Row k comes from line idx[k]: each line that holds a colon gives its own
      row, the rows keep the order of the lines, and lines without a colon give none. */
  ghost predicate RowSources(lines: seq<string>, rows: seq<Row>, idx: seq<nat>) {
    && |idx| == |rows|
    && (forall k :: 0 <= k < |idx| ==>
          idx[k] < |lines| && ':' in lines[idx[k]] && rows[k] == ParseRow(lines[idx[k]]))
    && (forall k, l :: 0 <= k < l < |idx| ==> idx[k] < idx[l])
    && (forall i :: 0 <= i < |lines| && ':' in lines[i] ==> i in idx)
  }

  /** The rows are the colon lines' rows, one each, in line order. */
  lemma {:induction false} RowsFollowLines(lines: seq<string>) returns (idx: seq<nat>)
    ensures RowSources(lines, RowsOf(lines), idx)
    decreases |lines|
  {
    if lines == [] {
      idx := [];
    } else {
      var n := |lines| - 1;
      var front := lines[..n];
      var prev := RowsFollowLines(front);
      assert lines == front + [lines[n]];
      if ':' in lines[n] {
        idx := prev + [n];
        SourcesAddRow(front, RowsOf(front), prev, lines[n]);
      } else {
        idx := prev;
        SourcesSkipLine(front, RowsOf(front), prev, lines[n]);
      }
    }
  }

  lemma SourcesAddRow(lines: seq<string>, rows: seq<Row>, idx: seq<nat>, line: string)
    requires RowSources(lines, rows, idx) && ':' in line
    ensures RowSources(lines + [line], rows + [ParseRow(line)], idx + [|lines|])
  {
    AddRowRows(lines, rows, idx, line);
    AddRowOrder(lines, idx);
    AddRowCovers(lines, idx, line);
  }

  lemma AddRowOrder(lines: seq<string>, idx: seq<nat>)
    requires forall k :: 0 <= k < |idx| ==> idx[k] < |lines|
    requires forall k, l :: 0 <= k < l < |idx| ==> idx[k] < idx[l]
    ensures forall k, l :: 0 <= k < l < |idx| + 1 ==> (idx + [|lines|])[k] < (idx + [|lines|])[l]
  {
    var ix := idx + [|lines|];
    forall k, l | 0 <= k < l < |ix| ensures ix[k] < ix[l] {
      assert ix[k] == idx[k];
      if l < |idx| { assert ix[l] == idx[l]; }
    }
  }

  lemma AddRowRows(lines: seq<string>, rows: seq<Row>, idx: seq<nat>, line: string)
    requires |idx| == |rows| && ':' in line
    requires forall k :: 0 <= k < |idx| ==>
               idx[k] < |lines| && ':' in lines[idx[k]] && rows[k] == ParseRow(lines[idx[k]])
    ensures forall k :: 0 <= k < |idx| + 1 ==>
              (idx + [|lines|])[k] < |lines| + 1 && ':' in (lines + [line])[(idx + [|lines|])[k]]
              && (rows + [ParseRow(line)])[k] == ParseRow((lines + [line])[(idx + [|lines|])[k]])
  {
    var ls, rs, ix := lines + [line], rows + [ParseRow(line)], idx + [|lines|];
    forall k | 0 <= k < |ix|
      ensures ix[k] < |ls| && ':' in ls[ix[k]] && rs[k] == ParseRow(ls[ix[k]])
    {
      if k < |idx| {
        assert ix[k] == idx[k] && rs[k] == rows[k] && ls[idx[k]] == lines[idx[k]];
      }
    }
  }

  lemma AddRowCovers(lines: seq<string>, idx: seq<nat>, line: string)
    requires forall i :: 0 <= i < |lines| && ':' in lines[i] ==> i in idx
    ensures forall i :: 0 <= i < |lines| + 1 && ':' in (lines + [line])[i] ==> i in idx + [|lines|]
  {
    var ls := lines + [line];
    forall i | 0 <= i < |ls| && ':' in ls[i] ensures i in idx + [|lines|] {
      if i < |lines| { assert ls[i] == lines[i]; }
    }
  }

  lemma SourcesSkipLine(lines: seq<string>, rows: seq<Row>, idx: seq<nat>, line: string)
    requires RowSources(lines, rows, idx) && ':' !in line
    ensures RowSources(lines + [line], rows, idx)
  {
    var ls := lines + [line];
    forall k | 0 <= k < |idx| ensures ls[idx[k]] == lines[idx[k]] { }
    forall i | 0 <= i < |ls| && ':' in ls[i] ensures i in idx {
      assert i < |lines| && ls[i] == lines[i];
    }
  }

  /** Every key is free of colons, and no key or value starts or ends with whitespace. */
  lemma RowsAreTrimmed(lines: seq<string>)
    ensures forall r :: r in RowsOf(lines) ==> ':' !in r.key && Trimmed(r.key) && Trimmed(r.value)
  {
    var idx := RowsFollowLines(lines);
    assert RowSources(lines, RowsOf(lines), idx);
    forall r | r in RowsOf(lines) ensures ':' !in r.key && Trimmed(r.key) && Trimmed(r.value) {
      var k :| 0 <= k < |RowsOf(lines)| && RowsOf(lines)[k] == r;
      assert r == ParseRow(lines[idx[k]]);
    }
  }

  // ------------------------------------------------- what the user sees

  /** The table appears exactly when the process exited with status 0, its
      output holds no rate-limit message and is not blank. */
  lemma TableShownIff(run: RunResult)
    ensures WhatUserSees(run).Shown? <==>
              run.Completed? && run.returnCode == 0 && !Occurs(RateLimitMessage, run.stdout) && !AllSpace(run.stdout)
  {
    if run.Completed? {
      StripSpec(run.stdout);
    }
  }

  /** A rate-limit message anywhere in the output hides the table, whatever the exit status. */
  lemma RateLimitHidesTable(code: int, before: string, after: string, err: string)
    ensures WhatUserSees(Completed(code, before + RateLimitMessage + after, err)) == NoInformation
  {
    var out := before + RateLimitMessage + after;
    assert out[|before|..|before| + |RateLimitMessage|] == RateLimitMessage;
    assert OccursAt(RateLimitMessage, out, |before|);
  }

  /** Blank output with exit status 0 produces no table. */
  lemma BlankOutputHidesTable(out: string, err: string)
    requires AllSpace(out)
    ensures WhatUserSees(Completed(0, out, err)) == NoInformation
  {
    StripSpec(out);
  }

  /** Stripping the output before parsing it never changes the rows: it only
      decides whether there is a table at all. */
  lemma SuccessfulLookupRows(out: string, err: string)
    requires !Occurs(RateLimitMessage, out)
    ensures WhatUserSees(Completed(0, out, err)) ==
              if AllSpace(out) then NoInformation else Shown(RowsOf(SplitLines(out)))
  {
    StripSpec(out);
    if !AllSpace(out) {
      StripKeepsRows(out);
    }
  }

  /** The rows of `Strip(s)` are the rows of `s`. */
  lemma StripKeepsRows(s: string)
    ensures RowsOf(SplitLines(Strip(s))) == RowsOf(SplitLines(s))
  {
    var m := Strip(s);
    StripSpec(s);
    var a, b := StripParts(s);
    if m == [] {
      SpaceOnlyNoRows(s);
    } else {
      assert (m + b)[0] == m[0];
      LeadingSpaceKeepsRows(a, m + b);
      TrailingSpaceKeepsRows(m, b);
    }
  }

  /** Blank text has no rows. */
  lemma {:induction false} SpaceOnlyNoRows(w: string)
    requires AllSpace(w)
    ensures RowsOf(SplitLines(w)) == []
    decreases |w|
  {
    if w != [] {
      var e := BreakIndex(w);
      assert ':' !in w[..e] by { NoColonInSpace(w[..e]); }
      if e == |w| {
        assert w[..e] == w;
        SplitLinesSingle(w);
        RowsOfCons(w, []);
      } else {
        var n := BoundaryLength(w, e);
        SplitLinesStep(w, e, n);
        RowsOfCons(w[..e], SplitLines(w[e + n..]));
        SpaceOnlyNoRows(w[e + n..]);
      }
    }
  }

  lemma NoColonInSpace(w: string)
    requires AllSpace(w)
    ensures ':' !in w
  {
    forall k | 0 <= k < |w| ensures w[k] != ':' { assert IsSpace(w[k]); }
  }

  /** Whitespace in front of a text that starts with a non-blank character adds no row. */
  lemma {:induction false} LeadingSpaceKeepsRows(w: string, m: string)
    requires AllSpace(w) && (m == [] || !IsSpace(m[0]))
    ensures RowsOf(SplitLines(w + m)) == RowsOf(SplitLines(m))
    decreases |w|
  {
    if w == [] {
      assert w + m == m;
    } else if BreakIndex(w) < |w| {
      var rest := LeadingBlankLine(w, m);
      LeadingSpaceKeepsRows(rest, m);
    } else {
      assert w[..BreakIndex(w)] == w;
      if m == [] {
        assert w + m == w;
        SpaceOnlyNoRows(w);
      } else if BreakIndex(m) == |m| {
        LeadingOnlyLine(w, m);
      } else {
        LeadingFirstLine(w, m);
      }
    }
  }

  /** A blank first line before `m` gives no row. */
  lemma LeadingBlankLine(w: string, m: string) returns (rest: string)
    requires AllSpace(w) && (m == [] || !IsSpace(m[0])) && BreakIndex(w) < |w|
    ensures |rest| < |w| && AllSpace(rest)
    ensures RowsOf(SplitLines(w + m)) == RowsOf(SplitLines(rest + m))
  {
    var line;
    line, rest := SplitLinesSplitFirst(w, m);
    assert AllSpace(line) && AllSpace(rest);
    NoColonInSpace(line);
    RowsOfCons(line, SplitLines(rest + m));
  }

  /** Whitespace in front of a text that has no line break joins its only line. */
  lemma LeadingOnlyLine(w: string, m: string)
    requires AllSpace(w) && NoLineBreak(w) && m != [] && BreakIndex(m) == |m|
    ensures RowsOf(SplitLines(w + m)) == RowsOf(SplitLines(m))
  {
    var s := w + m;
    BreakIndexShift(w, m);
    assert m[..|m|] == m && s[..|s|] == s;
    SplitLinesSingle(m);
    SplitLinesSingle(s);
    RowsOfCons(s, []);
    RowsOfCons(m, []);
    assert [s] == [s] + [] && [m] == [m] + [];
    NoColonInSpace(w);
    if ':' in m { ParseRowPaddedFront(w, m); }
  }

  /** Whitespace in front of a text joins its first line. */
  lemma LeadingFirstLine(w: string, m: string)
    requires AllSpace(w) && NoLineBreak(w) && BreakIndex(m) < |m|
    ensures RowsOf(SplitLines(w + m)) == RowsOf(SplitLines(m))
  {
    var line, rest := SplitLinesJoinFirst(w, m);
    var more := SplitLines(rest);
    RowsOfCons(w + line, more);
    RowsOfCons(line, more);
    NoColonInSpace(w);
    if ':' in line { ParseRowPaddedFront(w, line); }
  }

  /** Whitespace behind a text that ends with a non-blank character adds no row. */
  lemma {:induction false} TrailingSpaceKeepsRows(m: string, w: string)
    requires AllSpace(w) && (m == [] || !IsSpace(m[|m| - 1]))
    ensures RowsOf(SplitLines(m + w)) == RowsOf(SplitLines(m))
    decreases |m|
  {
    if m == [] {
      assert m + w == w;
      SpaceOnlyNoRows(w);
    } else if BreakIndex(m) < |m| {
      var line, rest := TrailingFirstLine(m, w);
      RowsOfCons(line, SplitLines(rest + w));
      RowsOfCons(line, SplitLines(rest));
      TrailingSpaceKeepsRows(rest, w);
    } else {
      assert m[..BreakIndex(m)] == m;
      if BreakIndex(w) == |w| {
        TrailingOnlyLine(m, w);
      } else {
        TrailingLastLine(m, w);
      }
    }
  }

  /** The first line of a text that ends with a non-blank character is also the
      first line once whitespace follows the text. */
  lemma TrailingFirstLine(m: string, w: string) returns (line: string, rest: string)
    requires AllSpace(w) && m != [] && !IsSpace(m[|m| - 1]) && BreakIndex(m) < |m|
    ensures |rest| < |m| && rest != [] && !IsSpace(rest[|rest| - 1])
    ensures SplitLines(m + w) == [line] + SplitLines(rest + w)
    ensures SplitLines(m) == [line] + SplitLines(rest)
  {
    var s := m + w;
    var e := BreakIndex(m);
    BreakIndexPrefix(m, w);
    var n := BoundaryLength(m, e);
    assert IsLineBreak(m[e]);
    assert e + 1 < |m|;
    assert s[e] == m[e] && s[e + 1] == m[e + 1];
    assert BoundaryLength(s, e) == n;
    assert e + n < |m| by {
      assert IsLineBreak(m[e + n - 1]);
    }
    line, rest := m[..e], m[e + n..];
    assert s[..e] == line && s[e + n..] == rest + w;
    assert rest[|rest| - 1] == m[|m| - 1];
    SplitLinesStep(s, e, n);
    SplitLinesStep(m, e, n);
  }

  /** Break-free whitespace behind a break-free text joins its only line. */
  lemma TrailingOnlyLine(m: string, w: string)
    requires AllSpace(w) && m != [] && NoLineBreak(m) && BreakIndex(w) == |w|
    ensures RowsOf(SplitLines(m + w)) == RowsOf(SplitLines(m))
  {
    var s := m + w;
    BreakIndexShift(m, w);
    assert s[..|s|] == s && [s] == [s] + [] && [m] == [m] + [];
    SplitLinesSingle(m);
    SplitLinesSingle(s);
    RowsOfCons(s, []);
    RowsOfCons(m, []);
    NoColonInSpace(w);
    if ':' in m { ParseRowPaddedBack(m, w); }
  }

  /** Whitespace with a line break behind a break-free text: the text's line
      gains only blanks, and the blank lines after it give no rows. */
  lemma TrailingLastLine(m: string, w: string)
    requires AllSpace(w) && m != [] && NoLineBreak(m) && BreakIndex(w) < |w|
    ensures RowsOf(SplitLines(m + w)) == RowsOf(SplitLines(m))
  {
    SplitLinesSingle(m);
    var pad, after := SplitLinesJoinFirst(m, w);
    assert AllSpace(after) && AllSpace(pad);
    SpaceOnlyNoRows(after);
    PaddedLineThenBlank(m, pad, SplitLines(after));
  }

  /** A line padded with blanks, then lines giving no row, has the rows of the
      bare line. */
  lemma PaddedLineThenBlank(line: string, pad: string, rest: seq<string>)
    requires AllSpace(pad) && RowsOf(rest) == []
    ensures RowsOf([line + pad] + rest) == RowsOf([line])
  {
    RowsOfCons(line + pad, rest);
    assert [line] == [line] + [];
    RowsOfCons(line, []);
    NoColonInSpace(pad);
    if ':' in line { ParseRowPaddedBack(line, pad); }
  }

  // ------------------------------------------------------------ examples

  /** A line "key: value" padded with whitespace anywhere around its key and
      value becomes the row (key, value), provided the key holds no colon. */
  lemma PaddedKeyValueLine(a: string, key: string, b: string, c: string, value: string, d: string)
    requires AllSpace(a) && AllSpace(b) && AllSpace(c) && AllSpace(d)
    requires ':' !in key && Trimmed(key) && Trimmed(value)
    ensures ParseRow(a + key + b + [':'] + c + value + d) == Row(key, value)
  {
    var before, after := a + key + b, c + value + d;
    NoColonInSpace(a);
    NoColonInSpace(b);
    assert ':' !in before;
    JoinPadded(a, key, b, c, value, d);
    ParseRowAtFirstColon(before + [':'] + after, before, after);
    StripUnique(before, a, key, b);
    StripUnique(after, c, value, d);
  }

  lemma JoinPadded(a: string, key: string, b: string, c: string, value: string, d: string)
    ensures a + key + b + [':'] + c + value + d == (a + key + b) + [':'] + (c + value + d)
  {
  }

  /** "Domain Name: EXAMPLE.COM" becomes the row ("Domain Name", "EXAMPLE.COM"). */
  lemma DomainNameExample()
    ensures ParseRow("Domain Name: EXAMPLE.COM") == Row("Domain Name", "EXAMPLE.COM")
  {
    var key, value := "Domain Name", "EXAMPLE.COM";
    assert "Domain Name: EXAMPLE.COM" == [] + key + [] + [':'] + " " + value + [];
    assert AllSpace(" ") && Trimmed(key) && Trimmed(value) && ':' !in key;
    PaddedKeyValueLine([], key, [], " ", value, []);
  }
}
