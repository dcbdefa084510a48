# WHOIS lookup, modelled in Dafny

The WHOIS lookup tool runs the system's `whois` client on a domain. It accepts
the client's output only when the process exited with status 0 and the output
does not report a rate limit, and it shows the output as a two-column
table. A row holds the text before the first colon of a line (the key) and the
text after it (the value), both stripped of surrounding whitespace. Lines
without a colon give no row. When there is no output to show, the tool prints
a "No WHOIS information found" warning instead of a table.

The model has four modules:

- `Wrappers` (`wrappers.dfy`): the `Option` type that stands for Python's
  "a string or None".
- `PyStr` (`py_str.dfy`): the Python string operations the tool relies on, with
  Python 3's character sets:
  - `IsSpace` is `str.isspace`, Unicode whitespace included;
  - `IsLineBreak` is a line boundary of `str.splitlines` (`\n`, `\v`, `\f`,
    `\r`, the file, group and record separators, NEL, U+2028, U+2029), and
    `\r\n` counts as one boundary;
  - `LStrip`, `RStrip` and `Strip` are the no-argument `lstrip`, `rstrip` and
    `strip`;
  - `SplitOnce` is `split(sep, 1)`, and `Find` is its search for the first
    separator; `Contains` is the
    substring test `pat in s`; `SplitLines` is `splitlines()`.
- `WhoisLookup` (`whois_lookup.dfy`): the tool itself.
  - `RunResult` is what running the client ended in: it completed with an exit
    status, stdout and stderr, it timed out, the executable was not found, or
    some other exception was raised.
  - `PerformWhoisLookup` is `perform_whois_lookup`.
  - `DisplayWhoisInfo` is `display_whois_info`. It is an imperative method with
    the source's loop, and it adds rows to a `Table` object. It is proved equal
    to the pure specification `Presentation`, whose rows are `RowsOf`.
  - What the user is shown is a `Display`: `NoInformation` (the warning) or
    `Shown(rows)`.
- `WhoisProperties` (`whois_properties.dfy`): the properties, stated over the
  specification functions and proved as lemmas:
  - how a line is split;
  - which rows appear and in what order;
  - when a table is shown at all;
  - that stripping the whole output never changes the rows.

Running the external process is not modelled. The model takes the run's
outcome (`RunResult`) as a parameter. The console output is represented only
by the `Display` value.

## Model

| member | source | states |
|---|---|---|
| WhoisLookup.PerformWhoisLookup | whois_lookup.py:28-49 | There is data exactly when the process completed with status 0 and "Rate limit exceeded" occurs nowhere in its stdout. A nonzero status gives None whatever stdout holds, and so do a timeout, a missing executable and any other exception. When there is data, it is the stripped stdout, which neither starts nor ends with whitespace. |
| WhoisLookup.ParseRow | whois_lookup.py:63-66 | The row of a line holding a colon has a key without any colon, and neither key nor value starts or ends with whitespace. |
| WhoisLookup.RowsOf | whois_lookup.py:62-67 | The rows the loop has added after going over some lines: never more rows than lines. |
| WhoisLookup.Presentation | whois_lookup.py:51-70 | What `display_whois_info` shows: a table exactly when the data is a non-empty text, with at most one row per line of it. |
| WhoisLookup.WhatUserSees | whois_lookup.py:72-78 | What `whois_lookup` shows: a table only when the process completed with status 0 and its stdout holds no rate-limit message. |
| WhoisLookup.Table.constructor | whois_lookup.py:57-59 | A new table has no rows. |
| WhoisLookup.Table.AddRow | whois_lookup.py:67 | `add_row` appends one row (key, value) after the existing rows and changes nothing else. |
| WhoisLookup.DisplayWhoisInfo | whois_lookup.py:51-70 | None or "" gives the "no information" warning and no table. Any other text gives a table whose rows are `RowsOf` its `splitlines()` lines: each line holding a colon adds its parsed row, in line order. The loop invariant keeps the table equal to the rows of the lines seen so far. |
| WhoisLookup.WhoisLookup | whois_lookup.py:72-78 | Looking up and displaying shows exactly `WhatUserSees` for the process outcome. |
| PyStr.IsSpace | whois_lookup.py:42 | The characters `strip()` removes: Python's `str.isspace` set (space, `\t` to `\r`, `\x1c` to `\x1f`, NEL, no-break space, U+1680, U+2000 to U+200A, U+2028, U+2029, U+202F, U+205F, U+3000). No whitespace character is the separator ':'. |
| PyStr.IsLineBreak | whois_lookup.py:62 | The characters `splitlines()` ends a line at (`\n`, `\v`, `\f`, `\r`, `\x1c` to `\x1e`, NEL, U+2028, U+2029). Every one of them is whitespace. |
| PyStr.LStrip | whois_lookup.py:42 | `lstrip()` gives a suffix of its input. |
| PyStr.RStrip | whois_lookup.py:42 | `rstrip()` gives a prefix of its input. |
| PyStr.Strip | whois_lookup.py:42 | `strip()` gives no more characters than its input. |
| PyStr.StripSpec | whois_lookup.py:42 | `strip()` yields a text that neither starts nor ends with whitespace. It is empty exactly when the input is all whitespace. Only whitespace lies before and after it in the input. |
| PyStr.LStripSpec | whois_lookup.py:42 | `lstrip()` removes a prefix made only of whitespace, and what is left does not start with whitespace. |
| PyStr.RStripSpec | whois_lookup.py:42 | `rstrip()` removes a suffix made only of whitespace, and what is left does not end with whitespace. |
| PyStr.StripKeepsOut | whois_lookup.py:65 | Stripping never introduces a character, so the key never holds a colon. |
| PyStr.StripPadding | whois_lookup.py:65-66 | Whitespace added on either side of a text does not change what `strip()` gives. |
| PyStr.StripUnique | whois_lookup.py:65-66 | If a text is a trimmed middle padded with whitespace, `strip()` gives exactly that middle. |
| PyStr.Find | whois_lookup.py:64 | The search for the first separator that `split(':', 1)` does: the result is -1 exactly when `c` is absent. Otherwise it is an index holding `c` with no `c` before it. |
| PyStr.SplitOnce | whois_lookup.py:64 | `split(':', 1)` gives the whole text when there is no colon. Otherwise it gives two parts: the first holds no colon, and first part + ":" + second part is the line. |
| PyStr.Contains | whois_lookup.py:38 | The substring test is true exactly when the pattern occurs at some position of the text. |
| PyStr.CharOccurs | whois_lookup.py:63 | For the one-character pattern `':'`, Python's substring test is membership of the character. |
| PyStr.SplitLines | whois_lookup.py:62 | `splitlines()` gives no lines exactly for "", and no line holds a line boundary. |
| PyStr.SplitLinesRoundTrip | whois_lookup.py:62 | There are boundaries such that each line followed by its boundary gives back the text. Every boundary is one `splitlines` ends a line at, with "\r\n" kept whole. Only the last line may lack a boundary, and then it is not empty. |
| PyStr.SplitLinesSingle | whois_lookup.py:62 | A non-empty text without line boundaries is a single line. |
| WhoisProperties.ParseRowAtFirstColon | whois_lookup.py:64-66 | A line is split at its first colon only: the key is the stripped text before it, and the value is the stripped text after it, later colons included. The unstripped text before the first colon, ":" and the rest make up the line (see `SplitOnce`), and the "N/A" fallback is never taken. |
| WhoisProperties.ParseRowPaddedFront | whois_lookup.py:64-66 | Whitespace in front of a line changes neither its key nor its value. |
| WhoisProperties.ParseRowPaddedBack | whois_lookup.py:64-66 | Whitespace after a line changes neither its key nor its value. |
| WhoisProperties.PaddedKeyValueLine | whois_lookup.py:63-67 | A line "key: value", made of a trimmed key without a colon and a trimmed value with whitespace anywhere around them, becomes exactly the row (key, value). |
| WhoisProperties.DomainNameExample | whois_lookup.py:63-67 | "Domain Name: EXAMPLE.COM" becomes the row ("Domain Name", "EXAMPLE.COM"). |
| WhoisProperties.RowsOfAppend | whois_lookup.py:62-67 | The rows of two consecutive runs of lines are the rows of the first run followed by the rows of the second. |
| WhoisProperties.RowsOfCons | whois_lookup.py:62-67 | The first line gives the first row if it holds a colon, and no row otherwise. |
| WhoisProperties.RowCount | whois_lookup.py:62-67 | The table has exactly as many rows as there are lines holding a colon. |
| WhoisProperties.RowsFollowLines | whois_lookup.py:62-67 | Each row comes from its own colon line and is that line's parsed row. The rows follow line order, every colon line gives a row, and a line without a colon gives none. |
| WhoisProperties.RowsAreTrimmed | whois_lookup.py:64-66 | No key holds a colon, and no key or value starts or ends with whitespace. |
| WhoisProperties.TableShownIff | whois_lookup.py:34-55 | A table is shown exactly when the process completed with status 0 and its stdout holds no rate-limit message and is not all whitespace. |
| WhoisProperties.RateLimitHidesTable | whois_lookup.py:38-40 | Output with "Rate limit exceeded" anywhere in it never gives a table, whatever the exit status. |
| WhoisProperties.BlankOutputHidesTable | whois_lookup.py:42-55 | Whitespace-only output with status 0 strips to "" and gives the "no information" warning. |
| WhoisProperties.SuccessfulLookupRows | whois_lookup.py:42-67 | With status 0 and no rate-limit message, output that is all whitespace gives the warning. Any other output gives a table with the rows of the output's own lines, as if it had not been stripped. |
| WhoisProperties.StripKeepsRows | whois_lookup.py:42-67 | Stripping the text before splitting it into lines never changes the rows. |
| WhoisProperties.SpaceOnlyNoRows | whois_lookup.py:62-67 | Text made only of whitespace gives no rows. |
| WhoisProperties.LeadingSpaceKeepsRows | whois_lookup.py:42-67 | Whitespace in front of a text that starts with a non-whitespace character adds no row and changes none. |
| WhoisProperties.TrailingSpaceKeepsRows | whois_lookup.py:42-67 | Whitespace after a text that ends with a non-whitespace character adds no row and changes none. |

## Left out

- Running `whois` (`subprocess.run`, the 30-second timeout, capturing output) is not modelled. The outcome is a parameter (`RunResult`). The three `except` branches are the outcomes `TimedOut`, `ExecutableNotFound` and `Crashed`, each giving None as in the code.
- Console messages are not modelled, including the stderr text printed on failure. The console is represented only by the `Display` value, so the stderr field of `Completed` never affects the result.
- The table's columns, header and styles (`add_column`, `rich` formatting) are presentation only. `Table` keeps just its rows.
- `banner` and the trailing "lookup completed" message are console output only.
- `check_dependencies` is not modelled: the `shutil.which` lookup and its `sys.exit(1)` depend on the environment. Of that failure, the model keeps only the `ExecutableNotFound` outcome of the run.
- `clean_domain_input` is not modelled: its module, `utils/util.py`, is not part of this model. The domain it produces only reaches the process.
- `main`, the `__main__` block, the command-line arguments, the exit codes and `KeyboardInterrupt` handling are process-level control flow, not part of the lookup logic. The `sys.path` setup is not modelled either.
- The code writes no log and has a single failure value: every failure branch returns None. The cleaned domain goes to the process unchecked (whois_lookup.py:76-77). The model follows the code.
- `RunResult.stdout` is the text as `subprocess.run(..., text=True)` delivers it (whois_lookup.py:32): decoded, with line endings already turned into "\n". A decoding failure is the `Crashed` outcome. The model accepts any text, including ones holding "\r" or "\r\n", which a real run does not produce.
- `Display.Shown` holds the arguments passed to `add_row`. How `console.print(table)` (whois_lookup.py:69) renders them is not modelled: `rich` reads each cell as console markup, styles text such as "[bold]x", and raises an error on a malformed tag such as "[/]". For such a key or value the model still says `Shown(rows)`, while the program stops in the top-level handler (whois_lookup.py:92-94).
- PyStr.LStrip: its own contract only says the result is a suffix. `LStripSpec` proves that the removed prefix is all whitespace and that the result does not start with whitespace.
- PyStr.RStrip: its own contract only says the result is a prefix. `RStripSpec` proves that the removed suffix is all whitespace and that the result does not end with whitespace.
- PyStr.Strip: its own contract only bounds the length. `StripSpec` and `StripUnique` pin the result down.
- WhoisLookup.Presentation: its own contract only says when a table appears and bounds its rows. What the rows are is proved in `RowsFollowLines` and `SuccessfulLookupRows`.
- WhoisLookup.WhatUserSees: its own contract states one direction only. Both directions are proved in `TableShownIff`, and the rows in `SuccessfulLookupRows` and `RowsFollowLines`.
- WhoisLookup.RowsOf: its own contract only bounds the number of rows. What the rows are is proved in `RowCount`, `RowsFollowLines` and `RowsAreTrimmed`.
