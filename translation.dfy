/** The translate-and-flag pass of app.py:204-226. The original table is a value that is
    never written; every change goes to the copy (a `DataFrame` object) and to the set of
    flagged cells. The translator is a parameter: a function from (text, source code,
    target code) to the translated text or the message of the exception it raised. */
module Translation {
  import opened Wrappers
  import opened Text
  import opened Frames

  /** `suspicious_words` (app.py:208). */
  const SuspiciousWords: seq<string> := ["poloz", "rama", "skrutky", "ulozenie"]

  /** Prefix of the text written in place of a failed translation (app.py:224). */
  const ErrorMarker := "[CHYBA] "

  /** `any(word.lower() in text.lower() for word in suspicious_words)`. */
  predicate Suspicious(text: string) {
    exists w :: w in SuspiciousWords && Contains(Lower(text), Lower(w))
  }

  /** `GoogleTranslator(source=s, target=t).translate(text)`, or the message of what it raised. */
  type Translator = (string, string, string) -> Result<string, string>

  /** The arguments of one translator call. */
  datatype Request = Request(text: string, source: string, target: string)

  /** Everything the pass reads: the original table, the chosen source column and source
      code, the selected target codes in selection order, and the translator. */
  datatype Job = Job(table: Frame, textColumn: string, sourceLang: string,
                     targets: seq<string>, translate: Translator)

  /** The source column is one of the table's columns (it is chosen from them). */
  ghost predicate Ready(job: Job) {
    Valid(job.table) && job.textColumn in job.table.data
  }

  /** `str(row[text_column]) if pd.notna(row[text_column]) else ""`, read from the original. */
  function SourceText(job: Job, row: nat): (text: string)
    requires Ready(job) && row < job.table.height
    ensures job.table.data[job.textColumn][row].None? ==> text == ""
    ensures job.table.data[job.textColumn][row].Some? ==> text == job.table.data[job.textColumn][row].value
  {
    match job.table.data[job.textColumn][row]
    case Some(text) => text
    case None => ""
  }

  /** What the translator answers for a row and a target code. */
  function Outcome(job: Job, row: nat, lang: string): Result<string, string>
    requires Ready(job) && row < job.table.height
  {
    job.translate(SourceText(job, row), job.sourceLang, lang)
  }

  /** The text written to the destination cell. */
  function CellText(outcome: Result<string, string>): (text: string)
    ensures outcome.Success? ==> text == outcome.value
    ensures outcome.Failure? ==> text == ErrorMarker + outcome.error
  {
    match outcome
    case Success(translated) => translated
    case Failure(message) => ErrorMarker + message
  }

  /** A cell is flagged when the call failed or its text contains a suspicious word. */
  predicate Flagged(outcome: Result<string, string>) {
    outcome.Failure? || Suspicious(outcome.value)
  }

  function Suffix(lang: string): string {
    "(" + lang + ")"
  }

  /** First position at or after `i` whose lower-cased header ends with `suffix`. */
  function FirstEnding(columns: seq<string>, suffix: string, i: nat): (d: Option<nat>)
    requires i <= |columns|
    ensures d.Some? ==> i <= d.value < |columns|
    decreases |columns| - i
  {
    if i == |columns| then None
    else if EndsWith(Lower(columns[i]), suffix) then Some(i)
    else FirstEnding(columns, suffix, i + 1)
  }

  /** `next((col for col in translation_df.columns if col.lower().endswith(f"({lang})")), None)`:
      the first ORIGINAL header that ends, once lower-cased, with "(lang)" (app.py:213). */
  function FindDestination(columns: seq<string>, lang: string): Option<string>
  {
    match FirstEnding(columns, Suffix(lang), 0)
    case Some(i) => Some(columns[i])
    case None => None
  }

  /** A position `FirstEnding` reports fits, and none before it from `i` on does. */
  lemma {:induction false} FirstEndingHit(columns: seq<string>, suffix: string, i: nat)
    requires i <= |columns| && FirstEnding(columns, suffix, i).Some?
    ensures EndsWith(Lower(columns[FirstEnding(columns, suffix, i).value]), suffix)
    ensures forall j :: i <= j < FirstEnding(columns, suffix, i).value ==> !EndsWith(Lower(columns[j]), suffix)
    decreases |columns| - i
  {
    var fits := EndsWith(Lower(columns[i]), suffix);
    if !fits {
      FirstEndingHit(columns, suffix, i + 1);
    }
  }

  /** When `FirstEnding` reports nothing, no position from `i` on fits. */
  lemma {:induction false} FirstEndingMiss(columns: seq<string>, suffix: string, i: nat)
    requires i <= |columns| && FirstEnding(columns, suffix, i).None?
    ensures forall j :: i <= j < |columns| ==> !EndsWith(Lower(columns[j]), suffix)
    decreases |columns| - i
  {
    if i < |columns| {
      FirstEndingMiss(columns, suffix, i + 1);
    }
  }

  /** The destination found is the first header that ends, lower-cased, with "(lang)";
      none is found exactly when no header does. */
  lemma FindDestinationIsFirst(columns: seq<string>, lang: string)
    ensures var d := FindDestination(columns, lang);
      && (d.Some? ==> exists i :: (0 <= i < |columns| && columns[i] == d.value
            && EndsWith(Lower(columns[i]), Suffix(lang))
            && forall j :: 0 <= j < i ==> !EndsWith(Lower(columns[j]), Suffix(lang))))
      && (d.None? <==> forall j :: 0 <= j < |columns| ==> !EndsWith(Lower(columns[j]), Suffix(lang)))
  {
    var d := FirstEnding(columns, Suffix(lang), 0);
    if d.Some? {
      FirstEndingHit(columns, Suffix(lang), 0);
      assert EndsWith(Lower(columns[d.value]), Suffix(lang));
    } else {
      FirstEndingMiss(columns, Suffix(lang), 0);
    }
  }

  /** Only the header is lower-cased, so a code holding a character that `lower` changes
      (a capital letter, as `\w{2}` finds in "Text (EN)" or "Popis (\U{10C}Z)") never finds a
      column and always gets "Translation (code)". */
  lemma CapitalCodeNeverFound(columns: seq<string>, lang: string, at: nat)
    requires at < |lang| && LowerChar(lang[at]) != [lang[at]]
    ensures FindDestination(columns, lang) == None
    ensures Destination(columns, lang) == CreatedName(lang)
  {
    FindDestinationIsFirst(columns, lang);
    var suffix := Suffix(lang);
    var k := at + 1;
    assert suffix[k] == lang[at];
    forall j | 0 <= j < |columns|
      ensures !EndsWith(Lower(columns[j]), suffix)
    {
      LowerMissesCapitalSuffix(columns[j], suffix, k);
    }
  }

  /** "EN" and "\U{10C}Z" never find a column, whatever the headers. */
  lemma CapitalCodeExamples(columns: seq<string>)
    ensures FindDestination(columns, "EN") == None
    ensures FindDestination(columns, "\U{10C}Z") == None
  {
    CapitalCodeNeverFound(columns, "EN", 0);
    CapitalCodeNeverFound(columns, "\U{10C}Z", 0);
  }

  /** The header of the column created when no original header fits (app.py:215). */
  function CreatedName(lang: string): string {
    "Translation (" + lang + ")"
  }

  /** `matching_col` for a target code. */
  function Destination(columns: seq<string>, lang: string): (name: string)
    ensures FindDestination(columns, lang).Some? ==> name in columns
  {
    match FindDestination(columns, lang)
    case Some(name) => name
    case None => CreatedName(lang)
  }

  /** The copy keeps the original's rows and headers. */
  ghost predicate Extends(job: Job, f: Frame) {
    Valid(f) && f.height == job.table.height && forall c :: c in job.table.data ==> c in f.data
  }

  /** What one iteration of the inner loop (app.py:213-225) does to the copy, for `row` and
      target `lang`. When no original header fits, the created column is (re)set to "" in
      every row before the write, because the lookup never sees the copy's columns. */
  function Step(job: Job, f: Frame, row: nat, lang: string): (g: Frame)
    requires Ready(job) && Extends(job, f) && row < job.table.height
    ensures Extends(job, g)
  {
    var name := Destination(job.table.columns, lang);
    var prepared := if FindDestination(job.table.columns, lang).None? then Assigned(f, name, "") else f;
    WithCell(prepared, row, name, CellText(Outcome(job, row, lang)))
  }

  /** What one step changes: the destination cell of `row` receives the translation or the
      error marker; a created column is "" in every other row; no other column changes;
      and a header is appended only when the destination is not a header of the copy yet. */
  lemma StepEffect(job: Job, f: Frame, row: nat, lang: string)
    requires Ready(job) && Extends(job, f) && row < job.table.height
    ensures var g := Step(job, f, row, lang);
      var name := Destination(job.table.columns, lang);
      && name in g.data
      && g.data[name][row] == Some(CellText(Outcome(job, row, lang)))
      && (forall i :: 0 <= i < f.height && i != row ==>
            g.data[name][i] ==
              if FindDestination(job.table.columns, lang).None? then Some("") else f.data[name][i])
      && (forall c :: c != name ==> (c in g.data <==> c in f.data))
      && (forall c :: c in f.data && c != name ==> g.data[c] == f.data[c])
      && g.columns == (if name in f.data then f.columns else f.columns + [name])
  {
  }

  /** The copy after the first `j` targets of `row`, starting from `f`. */
  function RowSteps(job: Job, f: Frame, row: nat, j: nat): (g: Frame)
    requires Ready(job) && Extends(job, f) && row < job.table.height && j <= |job.targets|
    ensures Extends(job, g)
    decreases j
  {
    if j == 0 then f
    else Step(job, RowSteps(job, f, row, j - 1), row, job.targets[j - 1])
  }

  /** The copy after the first `n` rows. */
  function RowsDone(job: Job, n: nat): (g: Frame)
    requires Ready(job) && n <= job.table.height
    ensures Extends(job, g)
  {
    if n == 0 then job.table
    else RowSteps(job, RowsDone(job, n - 1), n - 1, |job.targets|)
  }

  /** The copy once every row is done. */
  function PassCopy(job: Job): Frame
    requires Ready(job)
  {
    RowsDone(job, job.table.height)
  }

  /** The entry `cell_styles[(row, matching_col)] = "highlight"` one iteration adds, if any
      (app.py:220-221 and 225). */
  function FlagOf(job: Job, row: nat, lang: string): set<(nat, string)>
    requires Ready(job) && row < job.table.height
  {
    if Flagged(Outcome(job, row, lang)) then {(row, Destination(job.table.columns, lang))} else {}
  }

  /** Flags added by the first `j` targets of `row`. */
  function RowFlags(job: Job, row: nat, j: nat): set<(nat, string)>
    requires Ready(job) && row < job.table.height && j <= |job.targets|
  {
    if j == 0 then {} else RowFlags(job, row, j - 1) + FlagOf(job, row, job.targets[j - 1])
  }

  /** Flags after the first `n` rows. */
  function Flags(job: Job, n: nat): set<(nat, string)>
    requires Ready(job) && n <= job.table.height
  {
    if n == 0 then {} else Flags(job, n - 1) + RowFlags(job, n - 1, |job.targets|)
  }

  /** Translator calls made for the first `j` targets of `row`. */
  function RowRequests(job: Job, row: nat, j: nat): seq<Request>
    requires Ready(job) && row < job.table.height && j <= |job.targets|
  {
    if j == 0 then []
    else RowRequests(job, row, j - 1) + [Request(SourceText(job, row), job.sourceLang, job.targets[j - 1])]
  }

  /** Translator calls made for the first `n` rows. */
  function Requests(job: Job, n: nat): seq<Request>
    requires Ready(job) && n <= job.table.height
  {
    if n == 0 then [] else Requests(job, n - 1) + RowRequests(job, n - 1, |job.targets|)
  }

  /** After targets `..j` of `row`: the copy, the flags and the calls of the row so far,
      from the copy `start` and the flags `before` the row had. */
  ghost predicate RowProgress(job: Job, start: Frame, before: set<(nat, string)>, row: nat, j: nat,
                              f: Frame, styles: set<(nat, string)>, calls: seq<Request>) {
    && Ready(job) && Extends(job, start) && row < job.table.height && j <= |job.targets|
    && f == RowSteps(job, start, row, j)
    && styles == before + RowFlags(job, row, j)
    && calls == RowRequests(job, row, j)
  }

  /** After rows `..row`: the copy, the flags and all translator calls so far. */
  ghost predicate PassProgress(job: Job, row: nat, f: Frame, styles: set<(nat, string)>, calls: seq<Request>) {
    && Ready(job) && row <= job.table.height
    && f == RowsDone(job, row)
    && styles == Flags(job, row)
    && calls == Requests(job, row)
  }

  /** The button handler's loops (app.py:204-226): returns the translated copy, the flagged
      cells and the translator calls in the order they are made. */
  method TranslateTable(job: Job) returns (copy: DataFrame, styles: set<(nat, string)>, requests: seq<Request>)
    requires Ready(job)
    ensures fresh(copy)
    ensures copy.Value() == PassCopy(job)
    ensures styles == Flags(job, job.table.height)
    ensures requests == Requests(job, job.table.height)
  {
    copy := new DataFrame.Copy(job.table);
    styles := {};
    requests := [];
    var row := 0;
    while row < job.table.height
      invariant PassProgress(job, row, copy.Value(), styles, requests)
    {
      styles, requests := TranslateRow(job, copy, styles, requests, row);
      row := row + 1;
    }
  }

  /** The inner loop (app.py:211-225) for one row: every selected target in selection
      order, each with exactly one translator call, whatever the earlier calls returned. */
  method TranslateRow(job: Job, copy: DataFrame, styles: set<(nat, string)>, requests: seq<Request>, row: nat)
    returns (styles': set<(nat, string)>, requests': seq<Request>)
    requires PassProgress(job, row, copy.Value(), styles, requests) && row < job.table.height
    modifies copy
    ensures PassProgress(job, row + 1, copy.Value(), styles', requests')
  {
    ghost var start := copy.Value();
    var text := SourceText(job, row);
    styles' := styles;
    var calls := [];
    var j := 0;
    while j < |job.targets|
      invariant RowProgress(job, start, styles, row, j, copy.Value(), styles', calls)
    {
      styles', calls := TranslateTarget(job, copy, styles', calls, row, text, j, start, styles);
      j := j + 1;
    }
    requests' := requests + calls;
  }

  /** Target `j` of `row`: one translator call and one step of the fold. */
  method TranslateTarget(job: Job, copy: DataFrame, styles: set<(nat, string)>, calls: seq<Request>,
                         row: nat, text: string, j: nat, ghost start: Frame, ghost before: set<(nat, string)>)
    returns (styles': set<(nat, string)>, calls': seq<Request>)
    requires RowProgress(job, start, before, row, j, copy.Value(), styles, calls) && j < |job.targets|
    requires text == SourceText(job, row)
    modifies copy
    ensures RowProgress(job, start, before, row, j + 1, copy.Value(), styles', calls')
  {
    var request;
    styles', request := TranslateCell(job, copy, styles, row, text, job.targets[j]);
    calls' := calls + [request];
    assert copy.Value() == RowSteps(job, start, row, j + 1);
  }

  /** One pass of the inner loop (app.py:213-225) on the copy, for target `lang` of `row`:
      resolve the destination, call the translator once, and record the outcome. Returns
      the arguments of that call. */
  method TranslateCell(job: Job, copy: DataFrame, styles: set<(nat, string)>, row: nat, text: string, lang: string)
    returns (styles': set<(nat, string)>, request: Request)
    requires Ready(job) && Extends(job, copy.Value()) && row < job.table.height
    requires text == SourceText(job, row)
    modifies copy
    ensures copy.Value() == Step(job, old(copy.Value()), row, lang)
    ensures styles' == styles + FlagOf(job, row, lang)
    ensures request == Request(SourceText(job, row), job.sourceLang, lang)
  {
    var name := PrepareDestination(job, copy, lang);
    request := Request(text, job.sourceLang, lang);
    var outcome := job.translate(request.text, request.source, request.target);
    styles' := Record(copy, styles, row, name, outcome);
  }

  /** `matching_col` (app.py:213-216): the first original header ending with "(lang)";
      when there is none, "Translation (lang)", which is (re)assigned "" in every row. */
  method PrepareDestination(job: Job, copy: DataFrame, lang: string) returns (name: string)
    requires Ready(job) && Extends(job, copy.Value())
    modifies copy
    ensures name == Destination(job.table.columns, lang)
    ensures copy.Value() == if FindDestination(job.table.columns, lang).None?
      then Assigned(old(copy.Value()), name, "") else old(copy.Value())
  {
    var found := FindDestination(job.table.columns, lang);
    if found.None? {
      name := CreatedName(lang);
      copy.AssignColumn(name, "");
    } else {
      name := found.value;
    }
  }

  /** The `try`/`except` of app.py:218-225: write the translation or the error marker to
      the cell, and flag it when the call failed or its text is suspicious. */
  method Record(copy: DataFrame, styles: set<(nat, string)>, row: nat, name: string,
                outcome: Result<string, string>)
    returns (styles': set<(nat, string)>)
    requires Valid(copy.Value()) && name in copy.data && row < copy.height
    modifies copy
    ensures copy.Value() == WithCell(old(copy.Value()), row, name, CellText(outcome))
    ensures styles' == if Flagged(outcome) then styles + {(row, name)} else styles
  {
    match outcome {
      case Success(translated) =>
        copy.SetAt(row, name, translated);
        styles' := if Suspicious(translated) then styles + {(row, name)} else styles;
      case Failure(message) =>
        copy.SetAt(row, name, ErrorMarker + message);
        styles' := styles + {(row, name)};
    }
  }
}
