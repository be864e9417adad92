# CallLogAnalyzer, modelled in Dafny

This project models the core of the call-log analyzer in
`call_log_analyzer/main.py`. The analyzer takes a table of call records.
Each record has a direction, callee ("To"), caller ("From"), duration in
seconds and creation instant. The analyzer:

- keeps the inbound calls that involve one user and last at least the
  activity threshold;
- builds a seven-row summary sheet: call counts, total time and truncated
  average times, each time rendered as "1h 5m 30s";
- builds a detail sheet with one row per kept call, in order of the call's
  instant. Each row says who the call was with ("call from PBX",
  "call to alice") and gives the readable duration next to the raw one.

A run stops early when the loaded table is empty or when no call survives the
filter.

Modules, one per file:

- `Records`: the record and configuration values.
- `Decimal`: decimal rendering of a natural number, with its parser.
- `Duration`: the hours/minutes/seconds decomposition. Also the imperative
  `FormatDuration`, which is proved equal to the `Readable` function, and a
  parser that inverts `Readable`.
- `Display`: the PBX identifier rule, both as written and as corrected.
- `Filter`: the three masks. A `for` loop per mask is proved against the
  `Narrow` and `Filtered` functions.
- `Summary`: the summary sheet and its arithmetic.
- `Detail`: the sort, interaction text and detail rows.
- `Analyzer`: the run with its two early exits, plus a worked two-call
  example.

The activity threshold lives in `constants.py`. That file is not part of this
model, so the threshold is a field of `Config`.

## Model

| member | source | states |
|---|---|---|
| Decimal.NatToString | call_log_analyzer/main.py:143-147 | the decimal text of an amount is non-empty and all digits, with no leading zero unless the amount is 0 |
| Decimal.ParseNatToString | call_log_analyzer/main.py:143-147 | reading the digits back gives the amount (round trip) |
| Decimal.NatToStringInjective | call_log_analyzer/main.py:143-147 | different amounts render to different digit strings |
| Duration.EmitValue | call_log_analyzer/main.py:141-147 | the emitted parts are worth h*3600 + m*60 + s and carry exactly h hours, m minutes and s seconds |
| Duration.PartsFacts | call_log_analyzer/main.py:138-147 | 1 to 3 parts; units strictly from h to s; they add up to the total; minutes and seconds are below 60; every amount is non-zero except the lone "0s", which appears exactly for a total of 0 |
| Duration.PartsUnits | call_log_analyzer/main.py:142-147 | "h" appears iff total >= 3600; "m" iff the remainder after hours holds a minute; "s" iff there are odd seconds or the total is under a minute |
| Duration.PartsComponents | call_log_analyzer/main.py:138-139 | the h, m and s amounts are total div 3600, (total mod 3600) div 60 and total mod 60 |
| Duration.Parts | call_log_analyzer/main.py:138-147 | the h/m/s parts of a total, from the two divmods and the three emission rules; `Duration.PartsFacts`, `Duration.PartsUnits` and `Duration.PartsComponents` characterize it |
| Duration.Readable | call_log_analyzer/main.py:132-149 | the value of the formatter, used by both sheets; `Duration.ReadableRoundTrip`, `Duration.ReadableZero` and `Duration.ReadableNeverEmpty` characterize it, and `Duration.FormatDuration` computes it step by step |
| Duration.RenderPart | call_log_analyzer/main.py:143-147 | a part renders as its digits followed by its unit letter |
| Duration.FormatDuration | call_log_analyzer/main.py:132-149 | the step-by-step formatting (null and 0 give "0s", then append h, m, s and join with spaces) yields exactly `Readable` of the input |
| Duration.ReadableRoundTrip | call_log_analyzer/main.py:138-149 | splitting the text on spaces and parsing each piece recovers the parts and the total (decode of encode) |
| Duration.ReadableInjective | call_log_analyzer/main.py:138-149 | different durations get different texts |
| Duration.ReadableNeverEmpty | call_log_analyzer/main.py:146-149 | the text is never empty |
| Duration.ReadableOfNothing | call_log_analyzer/main.py:132-136 | a missing duration and a zero duration both give "0s" |
| Duration.ReadableZero | call_log_analyzer/main.py:132-136 | the text is "0s" iff the duration is 0 or missing |
| Duration.ReadableTwoHours | call_log_analyzer/main.py:138-149 | 7200 s reads "2h" |
| Duration.ReadableHoursMinutesSeconds | call_log_analyzer/main.py:129 | 3930 s reads "1h 5m 30s" |
| Duration.ReadableMinuteSeconds | call_log_analyzer/main.py:138-149 | 65 s reads "1m 5s" |
| Duration.ReadableSecondsOnly | call_log_analyzer/main.py:146-147 | 45 s reads "45s" |
| Display.DisplayNameAsWritten | call_log_analyzer/main.py:118-120 | the name is "PBX" or the identifier itself, and every 32-character lower-case hex identifier maps to "PBX" |
| Display.DisplayName | call_log_analyzer/main.py:118-120 | the corrected rule yields "PBX" or the identifier itself |
| Display.MatchesPbxPatternAsWritten | call_log_analyzer/main.py:118 | `re.match` of the pattern: 32 lower-case hex characters then the end of the text or a single final newline; `Display.AsWrittenDiffersOnlyOnTrailingNewline` characterizes it |
| Display.DisplayNameIff | call_log_analyzer/main.py:19 | the identifier is replaced iff it is exactly 32 lower-case hex characters; otherwise it is returned unchanged |
| Display.AsWrittenDiffersOnlyOnTrailingNewline | call_log_analyzer/main.py:19 | the rule as written and the corrected rule disagree iff the identifier is 32 hex characters followed by one newline |
| Display.TrailingNewlineShownAsPbx | call_log_analyzer/main.py:118-120 | a PBX identifier with a trailing newline is shown as "PBX" as written, and verbatim by the corrected rule |
| Display.DisplayNameExamples | call_log_analyzer/main.py:118-120 | a PBX identifier maps to "PBX"; an e-mail address and an upper-case hex string are returned unchanged |
| Filter.Narrow | call_log_analyzer/main.py:90 | a mask keeps at most the rows it is given, and only rows that pass it |
| Filter.Filtered | call_log_analyzer/main.py:90-106 | the filtered set is no longer than the table and holds only inbound, user-involving, active rows of the table |
| Filter.Matches | call_log_analyzer/main.py:90-101 | the conjunction of the direction, user and duration masks, a missing duration failing; `Filter.NarrowThrice` ties it to the three masks applied in turn |
| Filter.ApplyStage | call_log_analyzer/main.py:93-95 | the loop over the rows computes exactly the mask's `Narrow` |
| Filter.FilterData | call_log_analyzer/main.py:89-106 | the three masks in sequence produce exactly `Filtered` |
| Filter.NarrowThrice | call_log_analyzer/main.py:90-101 | applying the direction, user and duration masks one after another equals filtering by their conjunction |
| Filter.FilteredIsSubsequence | call_log_analyzer/main.py:90-106 | the filtered rows are an order-preserving subsequence of the table |
| Filter.FilteredKeepsAllMatches | call_log_analyzer/main.py:90-106 | every matching row is kept as often as it occurs in the table, and a non-matching row never is (soundness and completeness) |
| Filter.FilteredIdempotent | call_log_analyzer/main.py:90-106 | filtering a filtered set changes nothing |
| Filter.FilteredEmpty | call_log_analyzer/main.py:50-53 | the filtered set is empty iff no row of the table matches |
| Summary.CallsTo | call_log_analyzer/main.py:160 | the "to user" subset is no longer than the set and holds only rows of the set whose callee is the user; `Summary.CallsToKeepsAll` gives the converse |
| Summary.CallsFrom | call_log_analyzer/main.py:161 | the "from user" subset is no longer than the set and holds only rows of the set whose caller is the user; `Summary.CallsFromKeepsAll` gives the converse |
| Summary.CallsToKeepsAll | call_log_analyzer/main.py:160 | each row whose callee is the user is in the "to user" subset as often as in the set, and no other row is, so "Total Calls To User" counts exactly those rows |
| Summary.CallsFromKeepsAll | call_log_analyzer/main.py:161 | each row whose caller is the user is in the "from user" subset as often as in the set, and no other row is, so "Total Calls From User" counts exactly those rows |
| Summary.TotalSeconds | call_log_analyzer/main.py:166 | the sum of the duration column; `Summary.TotalAtLeast` bounds it from below |
| Summary.TruncatedMean | call_log_analyzer/main.py:168-178 | the mean truncated to whole seconds, 0 for no calls; `Summary.TruncatedMeanBounds` characterizes it without the division |
| Summary.AverageSeconds | call_log_analyzer/main.py:195-197 | `int` of a subset's mean duration, as `TruncatedMean` of its sum and size; `Summary.AverageAtLeastThreshold` bounds it below |
| Summary.TruncatedMeanBounds | call_log_analyzer/main.py:168-178 | an empty subset averages 0; otherwise the average is the largest whole number of seconds a with a*n <= sum < (a+1)*n |
| Summary.SummarySheet | call_log_analyzer/main.py:180-199 | the sheet has seven rows, named by the seven metrics in their fixed order |
| Summary.SummaryValues | call_log_analyzer/main.py:163-198 | the rows hold, in order: the three counts, then the formatted total and the formatted to, from and overall truncated averages |
| Summary.ToPlusFrom | call_log_analyzer/main.py:163-165 | on rows involving the user, To count + From count = Total + number of self calls |
| Summary.NoSelfCalls | call_log_analyzer/main.py:160-161 | the self-call count is 0 iff no row has the user at both ends |
| Summary.TotalCallsBound | call_log_analyzer/main.py:163-165 | Total Calls <= To + From, with equality iff no row has the user as both caller and callee |
| Summary.TotalAtLeast | call_log_analyzer/main.py:166 | when every call lasts at least the threshold, the total time is at least count * threshold |
| Summary.AverageAtLeastThreshold | call_log_analyzer/main.py:176-178 | when every call of a non-empty subset lasts at least the threshold, its truncated average does too |
| Summary.FilteredSummary | call_log_analyzer/main.py:160-178 | on the filtered set, every row has a duration, Total <= To + From, and each non-empty subset averages at least the threshold |
| Detail.InteractionDirection | call_log_analyzer/main.py:217-222 | the text starts "call from " iff the user is the callee, followed by the caller's display name; otherwise it is "call to " followed by the callee, and for a filtered call the user is then the caller |
| Detail.Interaction | call_log_analyzer/main.py:217-222 | "call from " and the caller's display name when the user is the callee, "call to " and the callee otherwise; `Detail.InteractionDirection` characterizes it |
| Detail.RowsOf | call_log_analyzer/main.py:224-227 | one row per call, the i-th row describing the i-th call |
| Detail.Insert | call_log_analyzer/main.py:215 | inserting a call adds exactly that call to the multiset |
| Detail.InsertSorted | call_log_analyzer/main.py:215 | inserting into a sequence ordered by instant keeps it ordered |
| Detail.SortByInstant | call_log_analyzer/main.py:215 | the result is ordered by instant and is a permutation of the input |
| Detail.RowsOfSort | call_log_analyzer/main.py:215-227 | the rows of the sorted calls are a permutation of the rows of the calls |
| Detail.DetailSheet | call_log_analyzer/main.py:211-227 | one row per filtered call, ordered by instant, and a permutation of the calls' rows |
| Detail.DetailRowsDescribeCalls | call_log_analyzer/main.py:224-227 | each detail row is the row of some filtered call, and its readable duration is the formatting of the seconds beside it |
| Analyzer.Analyze | call_log_analyzer/main.py:44-57 | the run stops with no data iff the table is empty; it stops with no matches iff the table is non-empty and nothing passes the filter; otherwise it reports the summary and detail sheets of the non-empty filtered set |
| Analyzer.TwoCallScenarioFilter | call_log_analyzer/main.py:90-106 | with a 10-second threshold, a 65 s PBX call to bob is kept and a 5 s call is dropped |
| Analyzer.TwoCallScenarioSummary | call_log_analyzer/main.py:180-199 | that run counts 1 call: 1 to bob, 0 from bob, total "1m 5s" |
| Analyzer.TwoCallScenarioDetail | call_log_analyzer/main.py:211-227 | that run's detail sheet is the single row "call from PBX", "1m 5s", 65 s at the call's instant |

## Left out

- Loading and concatenating the CSV files (`call_log_analyzer/main.py:61-78`). This is file I/O. `Analyzer.Analyze` takes the combined table as a parameter.
- Writing the Excel workbook and sizing its columns (`call_log_analyzer/main.py:250-274`). This is file I/O. `Analyze` returns the two sheets instead.
- Timezone conversion and the `%Y-%m-%d %H:%M:%S` rendering of the call time (`call_log_analyzer/main.py:213-214`, `228-232`). Both need the timezone database and the calendar. `Detail.DetailRow` keeps the parsed instant itself, as an integer count of seconds. Parsing the "Created at" text into that instant is not modelled either.
- Logging, argument parsing and the `main` entry point. None of them affect the sheets.
- Floating-point means. The source takes a float mean and truncates it with `int(...)`. The model uses integer division. The two agree for the non-negative whole-second durations modelled here, except where a float sum loses precision on very large totals.
- Duration cells are modelled as non-negative whole seconds or missing. Negative and fractional cells, and the `int(...)` truncation of a fractional cell, are not modelled.
- Summary.SummarySheet: requires every row to have a duration, instead of letting the sum and mean skip missing cells as pandas does. Every filtered set meets this requirement (`Summary.FilteredSummary`), because the duration mask drops missing cells.
- Detail.SortByInstant: promises only an order by instant and a permutation. Calls with equal instants may come out in any order, because `sort_values` is not asked for a stable algorithm. The model leaves that order open.
- Duration.FormatDuration: takes an optional natural number. The Python function accepts any pandas scalar, including strings, which are not modelled.
- The rest of the model calls `Display.DisplayName`, the corrected PBX rule. `Display.DisplayNameAsWritten` is kept beside it to show the finding below.

## Findings

| source | as written | input that shows it | evidently intended | confidence | as-written member | corrected member |
|---|---|---|---|---|---|---|
| call_log_analyzer/main.py:19 | `$` in the PBX pattern also matches just before a final newline, so `re.match` accepts 32 lower-case hex characters followed by "\n" | the 32-character sample identifier plus "\n" is shown as "PBX" | only identifiers of exactly 32 lower-case hex characters are shown as "PBX" (anchor `\Z` or `fullmatch`) | not executed | Display.TrailingNewlineShownAsPbx | Display.DisplayNameIff |
