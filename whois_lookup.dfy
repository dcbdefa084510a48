/**
 * The two pieces of logic of the WHOIS lookup tool (whois_lookup.py):
 * - `perform_whois_lookup` decides, from what the `whois` process did, whether
 *   there is WHOIS text to show (`PerformWhoisLookup`);
 * - `display_whois_info` turns that text into the key/value rows of a table,
 *   one row per line that holds a colon, split at its first colon
 *   (`DisplayWhoisInfo`, specified by `Presentation`).
 * Running the process, printing and styling are not modelled: the process is
 * represented by its outcome, and what the user sees by a `Display` value.
 */
module WhoisLookup {
  import opened Wrappers
  import opened PyStr

  /** The text whose presence in the tool's output means the query was refused. */
  const RateLimitMessage: string := "Rate limit exceeded"

  /** What running `whois <domain>` with a 30-second timeout ended in: the
      process completed with an exit status and captured text, or one of the
      exceptions the lookup catches was raised. */
  datatype RunResult =
    | Completed(returnCode: int, stdout: string, stderr: string)
    | TimedOut
    | ExecutableNotFound
    | Crashed(message: string)

  /** `perform_whois_lookup`: the WHOIS text, or None when the process failed,
      reported a rate limit, or could not be run. */
  function PerformWhoisLookup(run: RunResult): (data: Option<string>)
    ensures data.Some? <==> run.Completed? && run.returnCode == 0 && !Occurs(RateLimitMessage, run.stdout)
    ensures data.Some? ==> data.value == Strip(run.stdout) && Trimmed(data.value)
  {
    match run
    case Completed(code, out, _) =>
      if code != 0 then None
      else if Contains(out, RateLimitMessage) then None
      else
        StripSpec(out);
        Some(Strip(out))
    case _ => None
  }

  /** One row of the table: the text before and after a line's first colon. */
  datatype Row = Row(key: string, value: string)

  /** What the user is shown: the "no WHOIS information" warning, or a table. */
  datatype Display = NoInformation | Shown(rows: seq<Row>)

  /** The row a line holding a colon becomes: split once at ':', both halves
      stripped; "N/A" stands for a missing right-hand part. */
  function ParseRow(line: string): (row: Row)
    requires ':' in line
    ensures ':' !in row.key && Trimmed(row.key) && Trimmed(row.value)
  {
    var parts := SplitOnce(line, ':');
    var key := Strip(parts[0]);
    var value := if |parts| > 1 then Strip(parts[1]) else "N/A";
    StripKeepsOut(parts[0], ':');
    StripSpec(parts[0]);
    if |parts| > 1 then StripSpec(parts[1]); Row(key, value) else Row(key, value)
  }

  /** The rows the table holds after the parsing loop has gone over `lines`. */
  function RowsOf(lines: seq<string>): (rows: seq<Row>)
    ensures |rows| <= |lines|
  {
    if lines == [] then []
    else
      var last := lines[|lines| - 1];
      RowsOf(lines[..|lines| - 1]) + (if ':' in last then [ParseRow(last)] else [])
  }

  /** What `display_whois_info` shows for the lookup's result: nothing but a
      warning for None or "", otherwise a table of the text's rows. */
  function Presentation(data: Option<string>): (d: Display)
    ensures d.Shown? <==> data.Some? && data.value != []
    ensures d.Shown? ==> |d.rows| <= |SplitLines(data.value)|
  {
    if data.None? || data.value == "" then NoInformation
    else Shown(RowsOf(SplitLines(data.value)))
  }

  /** What the user sees for one run of the `whois` process. */
  function WhatUserSees(run: RunResult): (d: Display)
    ensures d.Shown? ==> run.Completed? && run.returnCode == 0 && !Occurs(RateLimitMessage, run.stdout)
  {
    Presentation(PerformWhoisLookup(run))
  }

  /** The table being filled in; its columns and styles are presentation only. */
  class Table {
    var rows: seq<Row>

    constructor ()
      ensures rows == []
    {
      rows := [];
    }

    /** `table.add_row(key, value)` */
    method AddRow(key: string, value: string)
      modifies this
      ensures rows == old(rows) + [Row(key, value)]
    {
      rows := rows + [Row(key, value)];
    }
  }

  /** `display_whois_info`: build the table line by line. */
  method DisplayWhoisInfo(whoisData: Option<string>) returns (display: Display)
    ensures display == Presentation(whoisData)
  {
    if whoisData.None? || whoisData.value == "" {
      return NoInformation;
    }
    var table := new Table();
    var lines := SplitLines(whoisData.value);
    for i := 0 to |lines|
      invariant table.rows == RowsOf(lines[..i])
    {
      var line := lines[i];
      assert lines[..i + 1][..i] == lines[..i];
      if ':' in line {
        var row := ParseRow(line);
        table.AddRow(row.key, row.value);
      }
    }
    assert lines[..|lines|] == lines;
    return Shown(table.rows);
  }

  /** `whois_lookup`: look the domain up, then display the result. */
  method WhoisLookup(run: RunResult) returns (display: Display)
    ensures display == WhatUserSees(run)
  {
    var whoisData := PerformWhoisLookup(run);
    display := DisplayWhoisInfo(whoisData);
  }
}
