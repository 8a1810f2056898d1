/** What the translate-and-flag pass of app.py:204-226 produces, stated over the folds
    that `Translation.TranslateTable` is proved to compute. */
module PassFacts {
  import opened Wrappers
  import opened Frames
  import opened Translation

  /** Some target among the first `j` has `name` as destination and its call for `row`
      failed or returned suspicious text. */
  ghost predicate FlaggedFor(job: Job, row: nat, name: string, j: nat)
    requires Ready(job) && row < job.table.height && j <= |job.targets|
  {
    exists k :: 0 <= k < j && name == Destination(job.table.columns, job.targets[k])
      && Flagged(Outcome(job, row, job.targets[k]))
  }

  /** The targets of one row flag exactly the destinations of their failed or suspicious calls. */
  lemma {:induction false} RowFlagsMembers(job: Job, j: nat)
    requires Ready(job) && j <= |job.targets|
    ensures forall row, i, key: (nat, string) :: 0 <= row < job.table.height && 0 <= i <= j ==>
      (key in RowFlags(job, row, i) <==> key.0 == row && FlaggedFor(job, row, key.1, i))
  {
    if j > 0 {
      RowFlagsMembers(job, j - 1);
      forall row, key: (nat, string) | 0 <= row < job.table.height && key.0 == row && FlaggedFor(job, row, key.1, j)
        ensures key in RowFlags(job, row, j)
      {
        var k :| 0 <= k < j && key.1 == Destination(job.table.columns, job.targets[k])
          && Flagged(Outcome(job, row, job.targets[k]));
        if k < j - 1 {
          assert FlaggedFor(job, row, key.1, j - 1);
        }
      }
    }
  }

  /** `cell_styles` after the first `n` rows: a cell (row, header) is flagged exactly when
      the row is one of them and some selected target writes to that header with a failed
      or suspicious result. */
  lemma {:induction false} FlagsMembers(job: Job, n: nat)
    requires Ready(job) && n <= job.table.height
    ensures forall m, key: (nat, string) :: 0 <= m <= n ==>
      (key in Flags(job, m) <==> key.0 < m && FlaggedFor(job, key.0, key.1, |job.targets|))
  {
    if n > 0 {
      FlagsMembers(job, n - 1);
      RowFlagsMembers(job, |job.targets|);
    }
  }

  /** The calls of one row: one per selected target, in selection order, each with the
      row's text and the source code. */
  lemma {:induction false} RowRequestsInOrder(job: Job, row: nat, j: nat)
    requires Ready(job) && row < job.table.height && j <= |job.targets|
    ensures |RowRequests(job, row, j)| == j
    ensures forall k :: 0 <= k < j ==>
      RowRequests(job, row, j)[k] == Request(SourceText(job, row), job.sourceLang, job.targets[k])
  {
    if j > 0 {
      RowRequestsInOrder(job, row, j - 1);
    }
  }

  /** The text sent for a row is its source cell, and "" when that cell is NaN: each
      target's call for the row carries it. */
  lemma RowSendsSourceCell(job: Job, row: nat)
    requires Ready(job) && row < job.table.height
    ensures |RowRequests(job, row, |job.targets|)| == |job.targets|
    ensures job.table.data[job.textColumn][row].None? ==>
      forall k :: 0 <= k < |job.targets| ==>
        RowRequests(job, row, |job.targets|)[k] == Request("", job.sourceLang, job.targets[k])
    ensures job.table.data[job.textColumn][row].Some? ==>
      forall k :: 0 <= k < |job.targets| ==>
        RowRequests(job, row, |job.targets|)[k]
          == Request(job.table.data[job.textColumn][row].value, job.sourceLang, job.targets[k])
  {
    RowRequestsInOrder(job, row, |job.targets|);
  }

  /** The destination cell of a step shows the outcome: the translated text on success,
      flagged exactly when it is suspicious; "[CHYBA] " and the message on failure, always
      flagged. */
  lemma StepRecordsOutcome(job: Job, f: Frame, row: nat, lang: string)
    requires Ready(job) && Extends(job, f) && row < job.table.height
    ensures var name := Destination(job.table.columns, lang);
      var outcome := Outcome(job, row, lang);
      outcome.Success? ==>
        && Step(job, f, row, lang).data[name][row] == Some(outcome.value)
        && ((row, name) in FlagOf(job, row, lang) <==> Suspicious(outcome.value))
    ensures var name := Destination(job.table.columns, lang);
      var outcome := Outcome(job, row, lang);
      outcome.Failure? ==>
        && Step(job, f, row, lang).data[name][row] == Some(ErrorMarker + outcome.error)
        && (row, name) in FlagOf(job, row, lang)
  {
    StepEffect(job, f, row, lang);
  }

  /** A failed call leaves its (row, destination) cell flagged at the end of the pass. */
  lemma FailedCallFlagged(job: Job, row: nat, k: nat)
    requires Ready(job) && row < job.table.height && k < |job.targets|
    requires Outcome(job, row, job.targets[k]).Failure?
    ensures (row, Destination(job.table.columns, job.targets[k])) in Flags(job, job.table.height)
  {
    FlagsMembers(job, job.table.height);
    assert FlaggedFor(job, row, Destination(job.table.columns, job.targets[k]), |job.targets|);
  }

  /** Every row makes one call per target. */
  lemma {:induction false} RequestsCount(job: Job, n: nat)
    requires Ready(job) && n <= job.table.height
    ensures |Requests(job, n)| == n * |job.targets|
  {
    if n > 0 {
      var t := |job.targets|;
      var p := n - 1;
      RequestsCount(job, p);
      RowRequestsInOrder(job, p, t);
      assert |Requests(job, n)| == |Requests(job, p)| + t;
      assert n * t == p * t + t;
    }
  }

  /** Rows are translated one after the other: the calls of the first `m` rows come first. */
  lemma {:induction false} RequestsGrow(job: Job, m: nat, n: nat)
    requires Ready(job) && m <= n <= job.table.height
    ensures Requests(job, m) <= Requests(job, n)
    decreases n
  {
    if m < n {
      RequestsGrow(job, m, n - 1);
    }
  }

  /** The target among the first `j` that writes to `name`, if any. */
  ghost predicate DestinationOf(job: Job, name: string, j: nat)
    requires j <= |job.targets|
  {
    exists k :: 0 <= k < j && name == Destination(job.table.columns, job.targets[k])
  }

  /** `columns` after the first `j` targets appended their destinations, in selection
      order, each unless it is already a header. */
  function HeadersAfter(job: Job, columns: seq<string>, j: nat): seq<string>
    requires j <= |job.targets|
  {
    if j == 0 then columns
    else
      var g := HeadersAfter(job, columns, j - 1);
      var name := Destination(job.table.columns, job.targets[j - 1]);
      if name in g then g else g + [name]
  }

  lemma HeadersAfterNext(job: Job, columns: seq<string>, j: nat)
    requires 0 < j <= |job.targets|
    ensures var g := HeadersAfter(job, columns, j - 1);
      var name := Destination(job.table.columns, job.targets[j - 1]);
      HeadersAfter(job, columns, j) == if name in g then g else g + [name]
  {
  }

  /** The earlier headers stay in front, every destination ends up a header, nothing else
      is added, and no header is repeated. */
  lemma {:induction false} HeadersAfterShape(job: Job, columns: seq<string>, j: nat)
    requires j <= |job.targets| && Distinct(columns)
    ensures forall i :: 0 <= i <= j ==> columns <= HeadersAfter(job, columns, i)
    ensures forall i, c :: 0 <= i <= j ==>
      (c in HeadersAfter(job, columns, i) <==> c in columns || DestinationOf(job, c, i))
    ensures forall i :: 0 <= i <= j ==> Distinct(HeadersAfter(job, columns, i))
  {
    if j > 0 {
      HeadersAfterShape(job, columns, j - 1);
      HeadersAfterOneMore(job, columns, j);
    }
  }

  /** Target `j - 1` keeps the shape `HeadersAfterShape` describes. */
  lemma HeadersAfterOneMore(job: Job, columns: seq<string>, j: nat)
    requires 0 < j <= |job.targets|
    requires columns <= HeadersAfter(job, columns, j - 1) && Distinct(HeadersAfter(job, columns, j - 1))
    requires forall c :: c in HeadersAfter(job, columns, j - 1) <==> c in columns || DestinationOf(job, c, j - 1)
    ensures columns <= HeadersAfter(job, columns, j) && Distinct(HeadersAfter(job, columns, j))
    ensures forall c :: c in HeadersAfter(job, columns, j) <==> c in columns || DestinationOf(job, c, j)
  {
    HeadersAfterNext(job, columns, j);
    forall c | DestinationOf(job, c, j) && !DestinationOf(job, c, j - 1)
      ensures c == Destination(job.table.columns, job.targets[j - 1])
    {
      var k :| 0 <= k < j && c == Destination(job.table.columns, job.targets[k]);
      assert k == j - 1;
    }
  }

  /** When every destination is a header already, nothing is appended. */
  lemma {:induction false} HeadersAfterStable(job: Job, columns: seq<string>, j: nat)
    requires j <= |job.targets|
    requires forall k :: 0 <= k < j ==> Destination(job.table.columns, job.targets[k]) in columns
    ensures HeadersAfter(job, columns, j) == columns
  {
    if j > 0 {
      HeadersAfterStable(job, columns, j - 1);
    }
  }

  /** One step, whatever its row, appends its destination to the headers unless it is
      one already. */
  lemma StepColumns(job: Job, f: Frame, lang: string)
    requires Ready(job) && Extends(job, f)
    ensures var name := Destination(job.table.columns, lang);
      forall row :: 0 <= row < job.table.height ==>
        Step(job, f, row, lang).columns == if name in f.columns then f.columns else f.columns + [name]
  {
  }

  /** Within any row, the headers of the copy grow as `HeadersAfter` says. */
  lemma {:induction false} RowStepsColumns(job: Job, f: Frame, j: nat)
    requires Ready(job) && Extends(job, f) && j <= |job.targets|
    ensures forall row, i :: 0 <= row < job.table.height && 0 <= i <= j ==>
      RowSteps(job, f, row, i).columns == HeadersAfter(job, f.columns, i)
  {
    if j > 0 {
      RowStepsColumns(job, f, j - 1);
      HeadersAfterNext(job, f.columns, j);
      forall row | 0 <= row < job.table.height
        ensures RowSteps(job, f, row, j).columns == HeadersAfter(job, f.columns, j)
      {
        StepColumns(job, RowSteps(job, f, row, j - 1), job.targets[j - 1]);
      }
    }
  }

  /** Headers of the copy after `n >= 1` rows: the original headers, then "Translation (lang)"
      for each target without an original header, in selection order, once each; later
      rows add nothing. */
  lemma {:induction false} RowsDoneColumns(job: Job, n: nat)
    requires Ready(job) && n <= job.table.height
    ensures forall m :: 0 < m <= n ==>
      RowsDone(job, m).columns == HeadersAfter(job, job.table.columns, |job.targets|)
  {
    if n > 0 {
      var prev := RowsDone(job, n - 1);
      var after := HeadersAfter(job, job.table.columns, |job.targets|);
      RowsDoneColumns(job, n - 1);
      RowStepsColumns(job, prev, |job.targets|);
      assert RowsDone(job, n).columns == HeadersAfter(job, prev.columns, |job.targets|);
      if n == 1 {
        assert prev == job.table;
      } else {
        assert prev.columns == after;
        HeadersAfterSettled(job);
      }
      assert RowsDone(job, n).columns == after;
      forall m | 0 < m <= n
        ensures RowsDone(job, m).columns == after
      {
        if m < n {
          assert 0 < m <= n - 1;
        }
      }
    }
  }

  /** Once every destination has been added, a further row adds no header. */
  lemma HeadersAfterSettled(job: Job)
    requires Ready(job)
    ensures var after := HeadersAfter(job, job.table.columns, |job.targets|);
      HeadersAfter(job, after, |job.targets|) == after
  {
    var after := HeadersAfter(job, job.table.columns, |job.targets|);
    HeadersAfterShape(job, job.table.columns, |job.targets|);
    forall k | 0 <= k < |job.targets|
      ensures Destination(job.table.columns, job.targets[k]) in after
    {
      assert DestinationOf(job, Destination(job.table.columns, job.targets[k]), |job.targets|);
    }
    HeadersAfterStable(job, after, |job.targets|);
  }

  /** Every flagged cell is a cell of the finished copy, so the header lookup of app.py:265
      finds it and its row is a data row. */
  lemma FlagsAddressCopy(job: Job)
    requires Ready(job)
    ensures forall key: (nat, string) :: key in Flags(job, job.table.height) ==>
      key.0 < job.table.height && key.1 in PassCopy(job).columns
  {
    FlagsMembers(job, job.table.height);
    if job.table.height > 0 {
      RowsDoneColumns(job, job.table.height);
      HeadersAfterShape(job, job.table.columns, |job.targets|);
    }
    forall key: (nat, string) | key in Flags(job, job.table.height)
      ensures key.1 in PassCopy(job).columns
    {
      var k :| 0 <= k < |job.targets| && key.1 == Destination(job.table.columns, job.targets[k])
        && Flagged(Outcome(job, key.0, job.targets[k]));
      assert DestinationOf(job, key.1, |job.targets|);
    }
  }

  /** A step leaves every column other than its destination as it was. */
  lemma StepKeeps(job: Job, f: Frame, lang: string)
    requires Ready(job) && Extends(job, f)
    ensures forall row, c ::
      0 <= row < job.table.height && c in f.data && c != Destination(job.table.columns, lang) ==>
        c in Step(job, f, row, lang).data && Step(job, f, row, lang).data[c] == f.data[c]
  {
  }

  /** Within any row, columns that none of the first `j` targets writes to keep their cells. */
  lemma {:induction false} RowStepsKeep(job: Job, f: Frame, j: nat)
    requires Ready(job) && Extends(job, f) && j <= |job.targets|
    ensures forall row, i, c ::
      0 <= row < job.table.height && 0 <= i <= j && c in f.data && !DestinationOf(job, c, i) ==>
        c in RowSteps(job, f, row, i).data && RowSteps(job, f, row, i).data[c] == f.data[c]
  {
    if j > 0 {
      RowStepsKeep(job, f, j - 1);
      forall row, c | 0 <= row < job.table.height && c in f.data && !DestinationOf(job, c, j)
        ensures c in RowSteps(job, f, row, j).data && RowSteps(job, f, row, j).data[c] == f.data[c]
      {
        assert !DestinationOf(job, c, j - 1);
        assert c != Destination(job.table.columns, job.targets[j - 1]);
        StepKeeps(job, RowSteps(job, f, row, j - 1), job.targets[j - 1]);
      }
    }
  }

  /** Original columns that no selected target writes to come out of the pass unchanged. */
  lemma {:induction false} RowsDoneKeep(job: Job, n: nat)
    requires Ready(job) && n <= job.table.height
    ensures forall m, c :: 0 <= m <= n && c in job.table.data && !DestinationOf(job, c, |job.targets|) ==>
      c in RowsDone(job, m).data && RowsDone(job, m).data[c] == job.table.data[c]
  {
    if n > 0 {
      var prev := RowsDone(job, n - 1);
      RowsDoneKeep(job, n - 1);
      RowStepsKeep(job, prev, |job.targets|);
      forall m, c | 0 <= m <= n && c in job.table.data && !DestinationOf(job, c, |job.targets|)
        ensures c in RowsDone(job, m).data && RowsDone(job, m).data[c] == job.table.data[c]
      {
        if m == n {
          assert c in prev.data && prev.data[c] == job.table.data[c];
          assert RowsDone(job, n) == RowSteps(job, prev, n - 1, |job.targets|);
        }
      }
    }
  }

  /** No two selected targets write to the same header. */
  ghost predicate DistinctDestinations(job: Job) {
    forall k, k' :: 0 <= k < k' < |job.targets| ==>
      Destination(job.table.columns, job.targets[k]) != Destination(job.table.columns, job.targets[k'])
  }

  /** Cell `i` of the column of target `k` once the first `w` rows are done. An original
      column holds the translations of those rows and its own cells below them; a created
      column is set to "" by every row before that row writes, so only the last row done
      keeps its translation. */
  function Expected(job: Job, k: nat, w: nat, i: nat): Cell
    requires Ready(job) && k < |job.targets| && w <= job.table.height && i < job.table.height
  {
    var lang := job.targets[k];
    if FindDestination(job.table.columns, lang).Some? then
      if i < w then Some(CellText(Outcome(job, i, lang)))
      else job.table.data[Destination(job.table.columns, lang)][i]
    else if i + 1 == w then Some(CellText(Outcome(job, i, lang)))
    else Some("")
  }

  /** The column of target `k` in `f` is as after `w` rows (a created column exists once a
      row is done). */
  ghost predicate ColumnAt(job: Job, f: Frame, k: nat, w: nat)
    requires Ready(job) && Extends(job, f) && k < |job.targets| && w <= job.table.height
  {
    var name := Destination(job.table.columns, job.targets[k]);
    (0 < w || FindDestination(job.table.columns, job.targets[k]).Some?) ==>
      name in f.data && forall i :: 0 <= i < job.table.height ==> f.data[name][i] == Expected(job, k, w, i)
  }

  /** Target `k`'s step on row `row` brings its column from `row` rows done to `row + 1`. */
  lemma StepWrites(job: Job, f: Frame)
    requires Ready(job) && Extends(job, f)
    ensures forall row, k :: 0 <= row < job.table.height && 0 <= k < |job.targets| && ColumnAt(job, f, k, row) ==>
      ColumnAt(job, Step(job, f, row, job.targets[k]), k, row + 1)
  {
    forall row, k | 0 <= row < job.table.height && 0 <= k < |job.targets| && ColumnAt(job, f, k, row)
      ensures ColumnAt(job, Step(job, f, row, job.targets[k]), k, row + 1)
    {
      StepEffect(job, f, row, job.targets[k]);
    }
  }

  /** A step that writes to another header leaves the column of target `k` as it was. */
  lemma StepSpares(job: Job, f: Frame, lang: string)
    requires Ready(job) && Extends(job, f)
    ensures forall row, k, w ::
      (&& 0 <= row < job.table.height && 0 <= k < |job.targets| && 0 <= w <= job.table.height
       && Destination(job.table.columns, job.targets[k]) != Destination(job.table.columns, lang)
       && ColumnAt(job, f, k, w))
      ==> ColumnAt(job, Step(job, f, row, lang), k, w)
  {
    StepKeeps(job, f, lang);
  }

  /** Within row `row`, the first `i` targets bring their columns to `row + 1` rows done and
      leave the others' at `row`. */
  lemma {:induction false} RowStepsWrite(job: Job, f: Frame, j: nat)
    requires Ready(job) && Extends(job, f) && j <= |job.targets| && DistinctDestinations(job)
    ensures forall row, i, k ::
      (&& 0 <= row < job.table.height && 0 <= i <= j && 0 <= k < |job.targets|
       && ColumnAt(job, f, k, row))
      ==> ColumnAt(job, RowSteps(job, f, row, i), k, if k < i then row + 1 else row)
  {
    if j > 0 {
      RowStepsWrite(job, f, j - 1);
      forall row, k | 0 <= row < job.table.height && 0 <= k < |job.targets| && ColumnAt(job, f, k, row)
        ensures ColumnAt(job, RowSteps(job, f, row, j), k, if k < j then row + 1 else row)
      {
        NextTargetWrite(job, f, row, j, k);
      }
    }
  }

  /** Target `j - 1` of `row` moves its own column on and spares the other targets'. */
  lemma NextTargetWrite(job: Job, f: Frame, row: nat, j: nat, k: nat)
    requires Ready(job) && Extends(job, f) && 0 < j <= |job.targets| && DistinctDestinations(job)
    requires row < job.table.height && k < |job.targets|
    requires ColumnAt(job, RowSteps(job, f, row, j - 1), k, if k < j - 1 then row + 1 else row)
    ensures ColumnAt(job, RowSteps(job, f, row, j), k, if k < j then row + 1 else row)
  {
    var g := RowSteps(job, f, row, j - 1);
    var lang := job.targets[j - 1];
    assert RowSteps(job, f, row, j) == Step(job, g, row, lang);
    if k == j - 1 {
      StepWrites(job, g);
    } else {
      StepSpares(job, g, lang);
    }
  }

  /** After `m` rows every target's column is as `Expected` says for `m` rows done. */
  lemma {:induction false} RowsDoneWrite(job: Job, n: nat)
    requires Ready(job) && n <= job.table.height && DistinctDestinations(job)
    ensures forall m, k :: 0 <= m <= n && 0 <= k < |job.targets| ==> ColumnAt(job, RowsDone(job, m), k, m)
  {
    if n > 0 {
      var prev := RowsDone(job, n - 1);
      RowsDoneWrite(job, n - 1);
      RowStepsWrite(job, prev, |job.targets|);
      forall m, k | 0 <= m <= n && 0 <= k < |job.targets|
        ensures ColumnAt(job, RowsDone(job, m), k, m)
      {
        if m == n {
          assert ColumnAt(job, prev, k, n - 1);
          assert RowsDone(job, n) == RowSteps(job, prev, n - 1, |job.targets|);
          assert ColumnAt(job, RowSteps(job, prev, n - 1, |job.targets|), k, n - 1 + 1);
        }
      }
    }
  }

  /** What the finished copy holds in the column of target `k`, when no two targets share
      a header: an original column holds every row's translation (or error marker); a
      created "Translation (lang)" column holds "" in every row but the last, because
      each row re-assigns it before writing its own cell. */
  lemma PassWrites(job: Job, k: nat)
    requires Ready(job) && k < |job.targets| && DistinctDestinations(job)
    ensures var lang := job.targets[k];
      var name := Destination(job.table.columns, lang);
      FindDestination(job.table.columns, lang).Some? ==>
        name in PassCopy(job).data
        && forall i :: 0 <= i < job.table.height ==>
             PassCopy(job).data[name][i] == Some(CellText(Outcome(job, i, lang)))
    ensures var lang := job.targets[k];
      var name := Destination(job.table.columns, lang);
      FindDestination(job.table.columns, lang).None? && 0 < job.table.height ==>
        name in PassCopy(job).data
        && forall i :: 0 <= i < job.table.height ==>
             PassCopy(job).data[name][i] ==
               if i == job.table.height - 1 then Some(CellText(Outcome(job, i, lang))) else Some("")
  {
    RowsDoneWrite(job, job.table.height);
    assert ColumnAt(job, PassCopy(job), k, job.table.height);
  }
}
