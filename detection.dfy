/** Column detection (app.py:164-191): the default source column and language code, and
    the target languages offered for selection. */
module Detection {
  import opened Wrappers
  import opened Text
  import opened Patterns
  import opened Frames

  /** `translation_df[col].notna().sum()`: how many cells of a column are not NaN. */
  function NotNaCount(cells: seq<Cell>): (n: nat)
    ensures n <= |cells|
    ensures n == 0 <==> forall i :: 0 <= i < |cells| ==> cells[i].None?
  {
    if cells == [] then 0
    else (if cells[0].Some? then 1 else 0) + NotNaCount(cells[1..])
  }

  predicate IsLanguageColumn(header: string) {
    Match(LanguageColumn, header).Some?
  }

  /** Non-NaN count of the i-th header's column. */
  function Filled(f: Frame, i: nat): nat
    requires Valid(f) && i < |f.columns|
  {
    NotNaCount(f.data[f.columns[i]])
  }

  /** Positions of the language columns among the first `n` headers, in header order: the
      keys of `candidate_cols` (app.py:165-169). */
  function Candidates(f: Frame, n: nat): (ps: seq<nat>)
    requires Valid(f) && n <= |f.columns|
    ensures forall j :: 0 <= j < |ps| ==> ps[j] < n
    ensures forall j, j' :: 0 <= j < j' < |ps| ==> ps[j] < ps[j']
    ensures forall i :: 0 <= i < n && IsLanguageColumn(f.columns[i]) <==> i in ps
  {
    if n == 0 then []
    else if IsLanguageColumn(f.columns[n - 1]) then Candidates(f, n - 1) + [n - 1]
    else Candidates(f, n - 1)
  }

  /** `max(keys, key=...)` on keys with the given key values: the position of the first
      largest value, since `max` replaces its candidate only on a strictly larger key. */
  function FirstMax(keys: seq<nat>): (k: nat)
    requires keys != []
    ensures k < |keys|
    ensures forall j :: 0 <= j < |keys| ==> keys[j] <= keys[k]
    ensures forall j :: 0 <= j < k ==> keys[j] < keys[k]
  {
    if |keys| == 1 then 0
    else
      var k := FirstMax(keys[..|keys| - 1]);
      if keys[|keys| - 1] > keys[k] then |keys| - 1 else k
  }

  /** The defaults offered to the user: a source column and its language code. */
  datatype Detected = Detected(column: string, code: string)

  /** `auto_text_column` and `auto_source_lang` (app.py:165-172). `None` when the sheet has
      no columns at all: `translation_df.columns[0]` then raises and the whole run stops
      with an error message. */
  function DetectSource(f: Frame): (d: Option<Detected>)
    requires Valid(f)
    ensures d.None? <==> f.columns == []
  {
    if f.columns == [] then None
    else if Candidates(f, |f.columns|) == [] then Some(Detected(f.columns[0], "sk"))
    else
      var k := SourcePosition(f);
      Some(Detected(f.columns[k], Match(LanguageColumn, f.columns[k]).value))
  }

  /** Position of `max(candidate_cols, key=candidate_cols.get)` among the headers. */
  function SourcePosition(f: Frame): (k: nat)
    requires Valid(f) && Candidates(f, |f.columns|) != []
    ensures k < |f.columns| && IsLanguageColumn(f.columns[k])
  {
    var ps := Candidates(f, |f.columns|);
    var k := ps[FirstMax(CandidateCounts(f, ps))];
    assert k in ps;
    k
  }

  /** The values of `candidate_cols`, in the order of its keys. */
  function CandidateCounts(f: Frame, ps: seq<nat>): (counts: seq<nat>)
    requires Valid(f) && forall j :: 0 <= j < |ps| ==> ps[j] < |f.columns|
    ensures |counts| == |ps| && forall j :: 0 <= j < |ps| ==> counts[j] == Filled(f, ps[j])
  {
    seq(|ps|, j requires 0 <= j < |ps| => Filled(f, ps[j]))
  }

  /** Without language columns the detected source is the first column, with code "sk". */
  lemma DetectSourceFallback(f: Frame)
    requires Valid(f) && f.columns != []
    requires forall i :: 0 <= i < |f.columns| ==> !IsLanguageColumn(f.columns[i])
    ensures DetectSource(f) == Some(Detected(f.columns[0], "sk"))
  {
    assert Candidates(f, |f.columns|) == [] by {
      if Candidates(f, |f.columns|) != [] {
        assert Candidates(f, |f.columns|)[0] in Candidates(f, |f.columns|);
      }
    }
  }

  /** With some language column, the detected source is the language column at
      `SourcePosition`, with group 1 of its header as the code. */
  lemma DetectSourceIsLanguageColumn(f: Frame, i0: nat)
    requires Valid(f) && i0 < |f.columns| && IsLanguageColumn(f.columns[i0])
    ensures Candidates(f, |f.columns|) != []
    ensures var k := SourcePosition(f);
      DetectSource(f) == Some(Detected(f.columns[k], Match(LanguageColumn, f.columns[k]).value))
  {
    assert i0 in Candidates(f, |f.columns|);
  }

  /** The source position holds the most non-NaN cells among the language columns, and
      every language column before it holds strictly fewer. */
  lemma SourcePositionIsFirstFullest(f: Frame)
    requires Valid(f) && Candidates(f, |f.columns|) != []
    ensures forall i :: 0 <= i < |f.columns| && IsLanguageColumn(f.columns[i]) ==>
      Filled(f, i) <= Filled(f, SourcePosition(f))
    ensures forall i :: 0 <= i < SourcePosition(f) && IsLanguageColumn(f.columns[i]) ==>
      Filled(f, i) < Filled(f, SourcePosition(f))
  {
    var ps := Candidates(f, |f.columns|);
    var counts := CandidateCounts(f, ps);
    var best := FirstMax(counts);
    var k := ps[best];
    forall i | 0 <= i < |f.columns| && IsLanguageColumn(f.columns[i])
      ensures Filled(f, i) <= Filled(f, k)
      ensures i < k ==> Filled(f, i) < Filled(f, k)
    {
      var j :| 0 <= j < |ps| && ps[j] == i;
      assert counts[j] <= counts[best];
      if i < k {
        IncreasingPositions(ps, j, best);
      }
    }
  }

  /** In a strictly increasing sequence, a smaller element sits at an earlier position. */
  lemma IncreasingPositions(ps: seq<nat>, j: nat, b: nat)
    requires j < |ps| && b < |ps| && ps[j] < ps[b]
    requires forall x, y :: 0 <= x < y < |ps| ==> ps[x] < ps[y]
    ensures j < b
  {
  }

  /** A code the app offers as a target: group 1 of `.*\((\w{2})\)` on some header, other
      than the source language (compared case-sensitively). */
  ghost predicate IsTargetCode(columns: seq<string>, source: string, code: string) {
    code != source && exists i :: 0 <= i < |columns| && Match(TwoLetterCode, columns[i]) == Some(code)
  }

  /** `existing_target_langs` after the loop has seen the first `n` headers. */
  function CodesIn(columns: seq<string>, source: string, n: nat): seq<string>
    requires n <= |columns|
  {
    if n == 0 then []
    else
      var m := Match(TwoLetterCode, columns[n - 1]);
      if m.Some? && m.value != source then CodesIn(columns, source, n - 1) + [m.value]
      else CodesIn(columns, source, n - 1)
  }

  lemma {:induction false} CodesInMembers(columns: seq<string>, source: string, n: nat)
    requires n <= |columns|
    ensures forall code :: code in CodesIn(columns, source, n) <==>
      code != source && exists i :: 0 <= i < n && Match(TwoLetterCode, columns[i]) == Some(code)
  {
    if n > 0 {
      CodesInMembers(columns, source, n - 1);
    }
  }

  /** The loop at app.py:183-188, in header order and with repetitions. */
  method ExistingTargetLangs(columns: seq<string>, source: string) returns (codes: seq<string>)
    ensures codes == CodesIn(columns, source, |columns|)
    ensures forall code :: code in codes <==> IsTargetCode(columns, source, code)
  {
    codes := [];
    for n := 0 to |columns|
      invariant codes == CodesIn(columns, source, n)
    {
      var m := Match(TwoLetterCode, columns[n]);
      if m.Some? {
        var code := m.value;
        if code != source {
          codes := codes + [code];
        }
      }
    }
    CodesInMembers(columns, source, |columns|);
  }

  ghost predicate StrictlySorted(s: seq<string>) {
    forall i, j :: 0 <= i < j < |s| ==> Below(s[i], s[j])
  }

  /** Inserts `x` into a strictly sorted list unless it is there already. */
  function Insert(x: string, s: seq<string>): (r: seq<string>)
    requires StrictlySorted(s)
    ensures StrictlySorted(r)
    ensures forall y :: y in r <==> y == x || y in s
  {
    if s == [] then [x]
    else if x == s[0] then s
    else if Below(x, s[0]) then
      forall j | 0 < j < |s| ensures Below(x, s[j]) { BelowTransitive(x, s[0], s[j]); }
      [x] + s
    else
      BelowTotal(x, s[0]);
      var rest := Insert(x, s[1..]);
      forall j | 0 <= j < |rest| ensures Below(s[0], rest[j]) {
        if rest[j] != x {
          assert rest[j] in rest;
          var i :| 0 <= i < |s[1..]| && s[1..][i] == rest[j];
          assert s[i + 1] == rest[j];
        }
      }
      [s[0]] + rest
  }

  /** `sorted(set(xs))`. */
  function SortedUnique(xs: seq<string>): (r: seq<string>)
    ensures StrictlySorted(r)
    ensures forall y :: y in r <==> y in xs
  {
    if xs == [] then [] else Insert(xs[|xs| - 1], SortedUnique(xs[..|xs| - 1]))
  }

  /** A strictly sorted list is determined by its elements, so `SortedUnique` is the only
      possible value of `sorted(set(xs))`. */
  lemma {:induction false} StrictlySortedUnique(a: seq<string>, b: seq<string>)
    requires StrictlySorted(a) && StrictlySorted(b)
    requires forall y :: y in a <==> y in b
    ensures a == b
  {
    if a != [] {
      assert a[0] in a;
    }
    if b != [] {
      assert b[0] in b;
    }
    if a != [] && b != [] {
      if a[0] != b[0] {
        var i :| 0 < i < |b| && b[i] == a[0];
        var j :| 0 < j < |a| && a[j] == b[0];
        BelowTransitive(a[0], b[0], a[0]);
        BelowIrreflexive(a[0]);
        assert false;
      }
      forall y ensures y in a[1..] <==> y in b[1..] {
        if y in a[1..] {
          var i :| 1 <= i < |a| && a[i] == y;
          BelowIrreflexive(y);
          assert y in b && y != b[0];
          var j :| 0 <= j < |b| && b[j] == y;
          assert y == b[1..][j - 1];
        }
        if y in b[1..] {
          var i :| 1 <= i < |b| && b[i] == y;
          BelowIrreflexive(y);
          assert y in a && y != a[0];
          var j :| 0 <= j < |a| && a[j] == y;
          assert y == a[1..][j - 1];
        }
      }
      StrictlySortedUnique(a[1..], b[1..]);
      assert a == [a[0]] + a[1..] && b == [b[0]] + b[1..];
    }
  }

  /** `all_lang_options` (app.py:180-191): the target codes found in the headers, each once,
      in ascending order, never the source language. */
  method LanguageOptions(columns: seq<string>, source: string) returns (options: seq<string>)
    ensures StrictlySorted(options)
    ensures forall code :: code in options <==> IsTargetCode(columns, source, code)
    ensures forall code :: code in options ==>
      |code| == 2 && IsWordChar(code[0]) && IsWordChar(code[1]) && code != source
  {
    var codes := ExistingTargetLangs(columns, source);
    options := SortedUnique(codes);
    forall code | code in options
      ensures |code| == 2 && IsWordChar(code[0]) && IsWordChar(code[1])
    {
      var i :| 0 <= i < |columns| && Match(TwoLetterCode, columns[i]) == Some(code);
      MatchShape(TwoLetterCode, columns[i]);
    }
  }
}
