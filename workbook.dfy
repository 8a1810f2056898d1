/** The finished workbook's "Translations" sheet (app.py:233-267): where the copy's cells
    land, the column widths, and which cells get the red bold font. */
module Workbook {
  import opened Wrappers
  import opened Frames
  import opened Translation
  import opened PassFacts

  /** `to_excel(writer, sheet_name='Translations', index=False)` (app.py:235): the value of
      the sheet cell at 1-based (`r`, `c`). Row 1 holds the headers, row `i + 2` holds the
      frame's row `i`; an empty cell is `None`. */
  function SheetCell(f: Frame, r: nat, c: nat): Cell
    requires Valid(f) && 1 <= r <= f.height + 1 && 1 <= c <= |f.columns|
  {
    if r == 1 then Some(f.columns[c - 1]) else f.data[f.columns[c - 1]][r - 2]
  }

  /** `list(columns).index(name)`: the first position of `name`. */
  function IndexOf(columns: seq<string>, name: string): (i: nat)
    requires name in columns
    ensures i < |columns| && columns[i] == name
    ensures forall j :: 0 <= j < i ==> columns[j] != name
  {
    if columns[0] == name then 0 else 1 + IndexOf(columns[1..], name)
  }

  /** `(row=row_idx + 2, column=col_idx)` for a flagged (row, header) (app.py:265-267). */
  function Address(columns: seq<string>, key: (nat, string)): (nat, nat)
    requires key.1 in columns
  {
    (key.0 + 2, IndexOf(columns, key.1) + 1)
  }

  /** The loop of app.py:265-267: the sheet cells that receive the red bold font. Every
      flagged header must be a header of the copy, or `index` raises. */
  method HighlightCells(columns: seq<string>, styles: set<(nat, string)>) returns (cells: set<(nat, nat)>)
    requires forall key :: key in styles ==> key.1 in columns
    ensures forall p :: p in cells <==> exists key :: key in styles && p == Address(columns, key)
  {
    cells := {};
    var remaining := styles;
    while remaining != {}
      invariant remaining <= styles
      invariant forall p :: p in cells <==> exists key :: key in styles - remaining && p == Address(columns, key)
      decreases |remaining|
    {
      var key :| key in remaining;
      cells := cells + {Address(columns, key)};
      remaining := remaining - {key};
    }
  }

  /** The address of a (row, header) pair of a frame is the sheet cell holding that row's
      value in that header's column. */
  lemma AddressShowsCell(f: Frame, key: (nat, string))
    requires Valid(f) && key.0 < f.height && key.1 in f.columns
    ensures 2 <= Address(f.columns, key).0 <= f.height + 1
    ensures 1 <= Address(f.columns, key).1 <= |f.columns|
    ensures SheetCell(f, Address(f.columns, key).0, Address(f.columns, key).1) == f.data[key.1][key.0]
  {
    var r := key.0 + 2;
    var c := IndexOf(f.columns, key.1) + 1;
    assert f.columns[c - 1] == key.1;
    assert SheetCell(f, r, c) == f.data[key.1][r - 2];
  }

  /** Each highlighted cell of the pass's sheet is the data cell that the flagged call
      wrote: it lies below the header row, inside the sheet, and shows that row's value in
      that header's column. */
  lemma HighlightShowsFlaggedCell(job: Job, key: (nat, string))
    requires Ready(job) && key in Flags(job, job.table.height)
    ensures key.1 in PassCopy(job).columns
    ensures 2 <= Address(PassCopy(job).columns, key).0 <= job.table.height + 1
    ensures 1 <= Address(PassCopy(job).columns, key).1 <= |PassCopy(job).columns|
    ensures SheetCell(PassCopy(job), Address(PassCopy(job).columns, key).0, Address(PassCopy(job).columns, key).1)
      == PassCopy(job).data[key.1][key.0]
  {
    FlagsAddressCopy(job);
    AddressShowsCell(PassCopy(job), key);
  }

  /** openpyxl's column letter of the 1-based column `n`: bijective base 26, "A".."Z",
      "AA".."AZ", ... */
  function ColumnLetter(n: nat): (letters: string)
    requires 1 <= n
    ensures |letters| >= 1 && forall i :: 0 <= i < |letters| ==> 'A' <= letters[i] <= 'Z'
  {
    (if n > 26 then ColumnLetter((n - 1) / 26) else "") + [(('A' as int) + (n - 1) % 26) as char]
  }

  /** The 1-based column a string of capital letters names. */
  function ColumnIndex(letters: string): int
  {
    if letters == [] then 0
    else 26 * ColumnIndex(letters[..|letters| - 1]) + (letters[|letters| - 1] as int - 'A' as int + 1)
  }

  /** Reading a column's letters back gives the column: distinct columns have distinct
      letters. */
  lemma {:induction false} ColumnIndexOfLetter(n: nat)
    requires 1 <= n
    ensures ColumnIndex(ColumnLetter(n)) == n
    decreases n
  {
    var prefix := if n > 26 then ColumnLetter((n - 1) / 26) else "";
    var letters := ColumnLetter(n);
    assert letters[..|letters| - 1] == prefix;
    if n > 26 {
      ColumnIndexOfLetter((n - 1) / 26);
    }
  }

  /** Only the first column is called "A". */
  lemma LetterAIsFirst(n: nat)
    requires 1 <= n
    ensures ColumnLetter(n) == "A" <==> n == 1
  {
    ColumnIndexOfLetter(n);
    assert ColumnIndex("A") == 1;
  }

  /** The loop of app.py:261-263 over the `n` header cells: column "A" gets width 1, every
      other column width 80, and no other column is given a width. */
  method ColumnWidths(n: nat) returns (widths: map<string, nat>)
    ensures forall c :: 1 <= c <= n ==> ColumnLetter(c) in widths && widths[ColumnLetter(c)] == (if c == 1 then 1 else 80)
    ensures forall letters :: letters in widths ==> exists c :: 1 <= c <= n && letters == ColumnLetter(c)
  {
    widths := map[];
    var c := 1;
    while c <= n
      invariant 1 <= c <= n + 1
      invariant forall d :: 1 <= d < c ==> ColumnLetter(d) in widths && widths[ColumnLetter(d)] == (if d == 1 then 1 else 80)
      invariant forall letters :: letters in widths ==> exists d :: 1 <= d < c && letters == ColumnLetter(d)
    {
      var letter := ColumnLetter(c);
      LetterAIsFirst(c);
      forall d | 1 <= d < c
        ensures ColumnLetter(d) != letter
      {
        ColumnIndexOfLetter(d);
        ColumnIndexOfLetter(c);
      }
      widths := widths[letter := if letter != "A" then 80 else 1];
      c := c + 1;
    }
  }

  /** The font a cell of the sheet ends with, when the pass sets one. */
  datatype Font = Arial10 | RedBold

  /** The sheet cell `p` lies inside the written block and holds a value. */
  ghost predicate HasValue(f: Frame, p: (nat, nat))
    requires Valid(f)
  {
    1 <= p.0 <= f.height + 1 && 1 <= p.1 <= |f.columns| && SheetCell(f, p.0, p.1).Some?
  }

  /** The loop of app.py:247-250: every cell of the written block that holds a value gets
      Arial 10. */
  method DefaultFontCells(f: Frame) returns (cells: set<(nat, nat)>)
    requires Valid(f)
    ensures forall p: (nat, nat) :: p in cells <==> HasValue(f, p)
  {
    cells := {};
    var r := 1;
    while r <= f.height + 1
      invariant 1 <= r <= f.height + 2
      invariant forall p: (nat, nat) :: p in cells <==> HasValue(f, p) && p.0 < r
    {
      var c := 1;
      while c <= |f.columns|
        invariant 1 <= c <= |f.columns| + 1
        invariant forall p: (nat, nat) :: p in cells <==> HasValue(f, p) && (p.0 < r || (p.0 == r && p.1 < c))
      {
        if SheetCell(f, r, c).Some? {
          cells := cells + {(r, c)};
        }
        c := c + 1;
      }
      r := r + 1;
    }
  }

  /** The cell `p` is the address of a flagged (row, header) pair. */
  ghost predicate Highlighted(columns: seq<string>, styles: set<(nat, string)>, p: (nat, nat))
    requires forall key :: key in styles ==> key.1 in columns
  {
    exists key :: key in styles && p == Address(columns, key)
  }

  /** The fonts of the "Translations" sheet after app.py:247-250 and 265-267: the red bold
      font, set last, wins on a highlighted cell; every other cell holding a value keeps
      Arial 10; no other cell is given a font. */
  method StyleSheet(f: Frame, styles: set<(nat, string)>) returns (fonts: map<(nat, nat), Font>)
    requires Valid(f) && forall key :: key in styles ==> key.1 in f.columns
    ensures forall p :: p in fonts <==> HasValue(f, p) || Highlighted(f.columns, styles, p)
    ensures forall p :: p in fonts ==> fonts[p] == (if Highlighted(f.columns, styles, p) then RedBold else Arial10)
  {
    var plain := DefaultFontCells(f);
    var red := HighlightCells(f.columns, styles);
    fonts := map p | p in plain + red :: if p in red then RedBold else Arial10;
  }
}
