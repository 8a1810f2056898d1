# AVIX spreadsheet translator — verified model

`app.py` is a Streamlit page. It reads an uploaded Excel workbook and picks a default
source column and language from the headers. It offers as target languages the
codes of two word characters (Python's `\w`) in parentheses that headers hold, taking from
each header the rightmost such group on its first line, except a code equal to the source
language code. It then translates every row of the first
sheet into each selected target with a machine translator. Translations that failed or that contain a
suspicious word are flagged. The result is written to a new workbook in which flagged
cells are shown in red bold.

This project models that core in Dafny:

- `text.dfy` (module `Text`): the pieces of Python `str` the app relies on. These are the
  `\w` class, `lower`, `endswith`, the `in` substring test and string ordering.
- `patterns.dfy` (module `Patterns`): the two header patterns `.*\(([\w-]{2,10})\)` and
  `.*\((\w{2})\)` under `re.match`. A declarative reading of a match is proved to agree
  with the backtracking search. The code captured is the group whose `(` lies furthest
  right on the first line.
- `frames.dfy` (module `Frames`): the DataFrame as a column-major value `Frame`, and a
  class `DataFrame` for the copy that the pass updates in place.
- `detection.dfy` (module `Detection`): the default source column and language
  (app.py:164-172), and the sorted, de-duplicated list of offered target codes
  (app.py:180-191).
- `translation.dfy` (module `Translation`): the translate-and-flag pass (app.py:204-226).
  - It is imperative: `TranslateTable`, `TranslateRow`, `TranslateTarget`, `TranslateCell`,
    `PrepareDestination` and `Record` act on a `DataFrame` object.
  - They are proved equal to a fold of pure steps (`Step`, `RowSteps`, `RowsDone`). The
    fold also yields the flagged cells (`Flags`) and the sequence of translator calls
    (`Requests`).
- `pass_facts.dfy` (module `PassFacts`): what the fold guarantees.
  - Which cells are flagged.
  - The call order.
  - The header layout of the copy.
  - Which columns are untouched.
  - What each destination column holds at the end.
- `workbook.dfy` (module `Workbook`): the output sheet (app.py:235-267). It covers where
  each cell lands, the Arial pass, the column widths (including openpyxl's column letters)
  and the red bold highlights.

Behaviour of the code that the model reproduces and proves:

- The detection pattern accepts 2–10 characters from `[\w-]`. The target pattern accepts
  exactly two `\w`. Neither is anchored at the end of the header, so "Name (en) old"
  matches. The rightmost candidate group wins.
- The destination of a target is looked up among the ORIGINAL headers only
  (app.py:213).
  - When none fits, the column "Translation (lang)" is assigned "" in every row, on every
    row of the pass (app.py:216).
  - Only the last row's translation survives in such a created column
    (`PassFacts.PassWrites`).
- Only the header is lower-cased before `endswith`. A code holding a character that
  `lower` changes, such as "EN" from "Text (EN)" or "ČZ" from "Popis (ČZ)", which `\w{2}`
  accepts, therefore never finds its own column (`Translation.CapitalCodeNeverFound`).
- A cell is flagged when the call raised, or when its text contains one of the four words
  of app.py:208 after lower-casing. An empty translation is not flagged.

The translator is a parameter of the model. It is a function from (text, source code,
target code) to either the translated text or the message of the exception it raised.
The user's choices are also parameters: the source column, the source code and the
targets in selection order.

## Model

| member | source | states |
|---|---|---|
| Text.IsWordChar | app.py:164 | Python's `\w` on U+0000..U+017F: letters, digits, numeric characters and `_`; no contract of its own, used by `Patterns.MatchShape` and `Detection.LanguageOptions` |
| Text.LowerChar | app.py:213 | `c.lower()` is one or two characters (two for U+0130) |
| Text.Lower | app.py:213 | `s.lower()`; its result is lower case throughout, by `Text.LowerIsLowerCase` |
| Text.EndsWith | app.py:213 | `s.endswith(suffix)`; what a lower-cased header can end with is stated by `Text.LowerMissesCapitalSuffix` and `Translation.FindDestinationIsFirst` |
| Text.Contains | app.py:221 | the `in` substring test; used by `Translation.Suspicious` and stated through `Translation.Record` and `PassFacts.StepRecordsOutcome` |
| Text.LowerCharIsLowerCase | app.py:213 | every character `c.lower()` produces is left as it is by `lower` |
| Text.LowerIsLowerCase | app.py:213 | `lower` leaves each character of `s.lower()` as it is, so no capital letter survives in it |
| Text.LowerMissesCapitalSuffix | app.py:213 | a lower-cased header never ends with a suffix holding a character that `lower` changes |
| Text.BelowIrreflexive | app.py:191 | Python string order: no string is below itself |
| Text.BelowTransitive | app.py:191 | Python string order is transitive |
| Text.BelowTotal | app.py:191 | any two different strings are ordered one way or the other |
| Patterns.RunLength | app.py:164 | the longest run of class characters from a position: all in the class, and the next character is not (or the end) |
| Patterns.LineLength | app.py:164 | how far `.*` reaches: no newline before it, and a newline or the end at it |
| Patterns.RunLengthIs | app.py:164 | any maximal run of class characters has exactly the length `RunLength` computes |
| Patterns.CodeAtGroup | app.py:164 | trying the `(` at one position yields a group iff the pattern fits there, with that exact group |
| Patterns.MatchDownFromSpec | app.py:164 | backtracking from the end of `.*` finds the fitting group with the rightmost `(`, or reports that none fits |
| Patterns.Match | app.py:168 | `re.match(pattern, header)` and `.group(1)`, also at app.py:172 and app.py:184-186; characterised by `Patterns.MatchIsRightmostGroup` and `Patterns.MatchShape` |
| Patterns.MatchIsRightmostGroup | app.py:168 | a header matches iff the pattern fits somewhere on its first line; group 1 is the rightmost fitting group |
| Patterns.MatchShape | app.py:172 | a captured code has 2..10 `[\w-]` characters (language columns) or exactly two `\w` (target codes) |
| Detection.NotNaCount | app.py:166 | `notna().sum()` is at most the column length and is 0 iff every cell is NaN |
| Detection.Candidates | app.py:165-169 | the keys of `candidate_cols`: exactly the language-column positions, in header order |
| Detection.FirstMax | app.py:171 | `max(..., key=...)` returns a largest value, and every earlier value is strictly smaller |
| Detection.SourcePosition | app.py:171 | the chosen column is a language column |
| Detection.DetectSource | app.py:171-172 | a default exists exactly when the sheet has a column |
| Detection.DetectSourceFallback | app.py:171-172 | without a language column the default is the first column with code "sk" |
| Detection.DetectSourceIsLanguageColumn | app.py:171-172 | with some language column, the default is the chosen language column and its group 1 |
| Detection.SourcePositionIsFirstFullest | app.py:166-171 | the default column has the most non-NaN cells among language columns (the values of `candidate_cols`, `CandidateCounts`); on ties the first one wins |
| Detection.CodesInMembers | app.py:183-188 | a code is collected iff some header matches `\w{2}` with it and it differs from the source code |
| Detection.ExistingTargetLangs | app.py:181-188 | the loop collects, in header order, every target code other than the source code |
| Detection.Insert | app.py:191 | inserting into a strictly sorted list keeps it strictly sorted and adds just that element |
| Detection.SortedUnique | app.py:191 | `sorted(set(xs))` is strictly sorted and has exactly the elements of `xs` |
| Detection.StrictlySortedUnique | app.py:191 | two strictly sorted lists with the same elements are equal, so `sorted(set(xs))` is determined |
| Detection.LanguageOptions | app.py:180-191 | the offered targets: strictly ascending, exactly the two-word-character codes of the headers, never the source code |
| Frames.Repeat | app.py:216 | a scalar broadcast to a column: `n` cells, all equal to the value |
| Frames.Assigned | app.py:216 | `df[name] = value` keeps the frame well formed and its height |
| Frames.AssignedEffect | app.py:216 | `df[name] = value` fills that column with the value, keeps every other column, and appends a new header |
| Frames.WithCell | app.py:220 | `df.at[row, name] = value` keeps the frame well formed |
| Frames.DataFrame.Copy | app.py:204 | `copy()` holds the same frame as the original |
| Frames.DataFrame.AssignColumn | app.py:216 | the object's new state is `Assigned` of its old state |
| Frames.DataFrame.SetAt | app.py:220 | the object's new state is its old frame with the one cell replaced |
| PassFacts.RowSendsSourceCell | app.py:211-219 | every call of a row sends its source cell's text (`SourceText`), and "" when that cell is NaN |
| PassFacts.StepRecordsOutcome | app.py:218-225 | after a step the destination cell shows the translation (flagged iff suspicious) or "[CHYBA] " and the error message (always flagged); the cell text is `CellText` |
| PassFacts.FailedCallFlagged | app.py:223-225 | a failed call leaves its (row, destination) flagged at the end of the pass |
| Translation.Suspicious | app.py:221 | the lower-cased text contains a lower-cased word of the list at app.py:208; its effect on flags is stated by `PassFacts.StepRecordsOutcome` |
| Translation.Flagged | app.py:221-225 | failed or suspicious; `PassFacts.FlagsMembers` states that exactly these cells are flagged |
| Translation.FindDestination | app.py:213 | `next(...)` over the original headers; characterised by `Translation.FindDestinationIsFirst` |
| Translation.CreatedName | app.py:215 | "Translation (lang)"; what a created column holds is stated by `PassFacts.PassWrites` |
| Translation.FirstEndingHit | app.py:213 | a reported header ends with "(lang)" once lower-cased, and none before it does |
| Translation.FirstEndingMiss | app.py:213 | when nothing is reported, no header ends with "(lang)" once lower-cased |
| Translation.FindDestinationIsFirst | app.py:213 | `next(...)` returns the first fitting original header, and returns None iff no header fits |
| Translation.CapitalCodeNeverFound | app.py:213-215 | a code holding a character that `lower` changes never finds a header and always gets "Translation (code)" |
| Translation.CapitalCodeExamples | app.py:213-215 | "EN" and "ČZ" find no column, whatever the headers |
| Translation.Destination | app.py:213-215 | a found destination is an original header |
| Translation.Step | app.py:213-225 | one iteration keeps the copy's rows and original columns |
| Translation.StepEffect | app.py:213-225 | one iteration writes the outcome to the destination cell, blanks a created column elsewhere, and leaves other columns alone |
| Translation.RowSteps | app.py:212-225 | the steps of one row keep the copy's rows and original columns |
| Translation.RowsDone | app.py:210-225 | the steps of all rows keep the copy's rows and original columns |
| Translation.TranslateTable | app.py:204-226 | returns a fresh copy equal to the fold, exactly the flags of the fold, and the calls in order |
| Translation.TranslateRow | app.py:210-225 | one row of the loop advances the copy, the flags and the calls by that row's fold |
| Translation.TranslateTarget | app.py:212-225 | one target advances the row's fold by one step and one call |
| Translation.TranslateCell | app.py:213-225 | the copy's new state is `Step` of its old state, the flags gain `FlagOf`, and it returns the arguments of its one translator call |
| Translation.PrepareDestination | app.py:213-216 | returns the destination; a created column is (re)assigned "" and nothing else changes |
| Translation.Record | app.py:218-225 | the cell receives the translation or the error text; a flag is added iff the call failed or its text is suspicious |
| PassFacts.RowFlagsMembers | app.py:212-225 | a row's flags are exactly the destinations of its failed or suspicious calls |
| PassFacts.FlagsMembers | app.py:207-225 | `cell_styles` holds (row, header) iff the row was done and some target writing to that header failed or was suspicious there |
| PassFacts.RowRequestsInOrder | app.py:211-219 | each row makes one call per selected target, in selection order, with the row's source text and the source code |
| PassFacts.RequestsCount | app.py:210-219 | the pass makes rows × targets calls |
| PassFacts.RequestsGrow | app.py:210-219 | rows are translated in order: the calls of earlier rows come first |
| PassFacts.HeadersAfterShape | app.py:213-216 | original headers stay in front; the headers are the originals plus the destinations, each once |
| PassFacts.HeadersAfterStable | app.py:213-216 | when every destination is a header already, nothing is appended |
| PassFacts.HeadersAfterSettled | app.py:210-216 | rows after the first add no header |
| PassFacts.StepColumns | app.py:213-216 | a step appends its destination to the copy's headers unless it is one already |
| PassFacts.RowStepsColumns | app.py:212-216 | within any row, the copy's headers grow as `HeadersAfter` says: each target appends its destination unless it is a header already (`HeadersAfterNext`) |
| PassFacts.RowsDoneColumns | app.py:210-216 | after the first row, the copy's headers are the originals and then each created "Translation (lang)", in selection order, unless it is a header already |
| PassFacts.FlagsAddressCopy | app.py:222-225 | every flagged cell names a data row and a header of the finished copy |
| PassFacts.StepKeeps | app.py:213-225 | a step leaves every column other than its destination as it was |
| PassFacts.RowStepsKeep | app.py:212-225 | within a row, columns no target writes to keep their cells |
| PassFacts.RowsDoneKeep | app.py:204-225 | original columns that no selected target writes to come out of the pass unchanged |
| PassFacts.StepWrites | app.py:213-225 | a target's step on a row brings its own column one row further |
| PassFacts.StepSpares | app.py:213-225 | a step that writes to another header leaves a target's column as it was |
| PassFacts.NextTargetWrite | app.py:212-225 | when no two targets share a destination, the next target moves its own column on and spares the other targets' columns |
| PassFacts.RowStepsWrite | app.py:212-225 | when no two targets share a destination, after the first targets of a row their columns are one row further and the others are unchanged |
| PassFacts.RowsDoneWrite | app.py:210-225 | when no two targets share a destination, after `m` rows every target's column holds what `Expected` says for `m` rows |
| PassFacts.PassWrites | app.py:210-225 | when no two targets share a destination, an existing destination holds every row's outcome; a created one holds only the last row's outcome, "" elsewhere |
| Workbook.SheetCell | app.py:235 | `to_excel(index=False)`: headers in row 1, frame row `i` in sheet row `i + 2`; stated by `Workbook.AddressShowsCell` |
| Workbook.Address | app.py:266-267 | `(row + 2, index + 1)` of a flagged pair; stated by `Workbook.HighlightCells` and `Workbook.AddressShowsCell` |
| Workbook.IndexOf | app.py:266 | `list.index` returns the first position of the header |
| Workbook.HighlightCells | app.py:265-267 | the red bold font goes to exactly (row + 2, header position + 1) of every flagged cell |
| Workbook.AddressShowsCell | app.py:235 | with `index=False`, that address is a data cell of the sheet and shows that row's value in that header's column |
| Workbook.HighlightShowsFlaggedCell | app.py:265-267 | every highlight of the pass lands inside the sheet, below the header row, on the flagged cell |
| Workbook.ColumnLetter | app.py:262 | column letters are non-empty strings of capital letters |
| Workbook.ColumnIndexOfLetter | app.py:262 | reading a column's letters back gives the column, so distinct columns have distinct letters |
| Workbook.LetterAIsFirst | app.py:263 | only column 1 is called "A" |
| Workbook.ColumnWidths | app.py:261-263 | column 1 gets width 1, every other header column width 80, and no other column gets a width |
| Workbook.DefaultFontCells | app.py:247-250 | Arial 10 goes to exactly the cells of the written block that hold a value |
| Workbook.StyleSheet | app.py:247-250 | the final fonts: red bold on highlighted cells (set last), Arial 10 on the other cells that hold a value, none elsewhere |

## Left out

- Streamlit UI is not modelled: the page language texts, file upload, previews, buttons,
  progress bar, timing and the download. The user's choices enter the model as parameters.
- Reading the workbook is not modelled. This covers `.xls`/`.xlsx`, sheet selection, and
  pandas' renaming of duplicate headers, which `Frames.Valid` assumes has happened. Cells
  are taken as already converted to text. Non-string headers are not modelled: the pattern
  match of app.py:168 raises on them, so the run stops during detection.
- The machine translator is a parameter, not the network service. Its exceptions are
  failure results. The outer `except` of the page, which turns any uncaught error into an
  error message, is not modelled.
- The "Configuration" sheet is copied through unchanged and is not modelled. Its Arial
  pass (app.py:255-258) is the same loop as `Workbook.DefaultFontCells`.
- Serialising the workbook is not modelled: `to_excel`, `load_workbook`, `save`, and
  whether an empty string comes back as an empty cell. `Workbook.SheetCell` states where
  each value lands, and a written "" counts as a value.
- `\w` and `lower` are exact on U+0000..U+017F only. Above that every character is a
  non-word character that lower-cases to itself.
- Workbook.ColumnLetter: openpyxl's column letters follow the bijective base-26 scheme.
  The limit of 18278 columns, above which openpyxl raises, is not modelled.
- Workbook.ColumnWidths: takes the number of header cells. openpyxl reports one column
  for an empty sheet; that case is not reachable, because detection stops first on a
  sheet without columns.
- PassFacts.PassWrites: stated only when no two selected targets write to the same header
  (`DistinctDestinations`). This can fail when an original header such as
  "Translation (EN)" is also the created name of another code; the contents of a column
  shared by two targets are not stated.
- PassFacts.RowsDoneWrite: requires `DistinctDestinations`, for the same reason as
  `PassWrites`, which it serves.
- PassFacts.RowStepsWrite: requires `DistinctDestinations`, for the same reason as
  `PassWrites`, which it serves.
- PassFacts.NextTargetWrite: requires `DistinctDestinations`, for the same reason as
  `PassWrites`, which it serves.
- A sheet without columns: `Detection.DetectSource` returns None where the page raises
  and stops.
