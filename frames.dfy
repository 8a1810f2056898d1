/** The pandas DataFrame as the app uses it: an ordered list of unique headers and, per
    header, one column of cells (pandas keeps a frame column by column). A cell is `None`
    where pandas holds NaN (an empty spreadsheet cell) and `Some(text)` otherwise; cells are
    taken as already converted with `str(...)`. Row labels are 0, 1, ..., height - 1, the
    RangeIndex `read_excel` produces. */
module Frames {
  import opened Wrappers

  type Cell = Option<string>

  datatype Frame = Frame(columns: seq<string>, data: map<string, seq<Cell>>, height: nat)

  /** No header occurs twice. */
  ghost predicate Distinct(columns: seq<string>) {
    forall a, b :: 0 <= a < b < |columns| ==> columns[a] != columns[b]
  }

  /** Headers are unique (read_excel renames duplicates), every header has a column and
      every column has one cell per row. */
  ghost predicate Valid(f: Frame) {
    && Distinct(f.columns)
    && (forall c :: c in f.data <==> c in f.columns)
    && (forall c :: c in f.data ==> |f.data[c]| == f.height)
  }

  /** A column of `n` copies of `cell`. */
  function Repeat(cell: Cell, n: nat): (cells: seq<Cell>)
    ensures |cells| == n && forall i :: 0 <= i < n ==> cells[i] == cell
  {
    if n == 0 then [] else Repeat(cell, n - 1) + [cell]
  }

  /** `df[name] = value` for a scalar `value`: every cell of column `name` becomes `value`;
      the column is appended after the others when `name` is not a header yet. */
  function Assigned(f: Frame, name: string, value: string): (g: Frame)
    requires Valid(f)
    ensures Valid(g) && g.height == f.height
  {
    var columns := if name in f.data then f.columns else f.columns + [name];
    Frame(columns, f.data[name := Repeat(Some(value), f.height)], f.height)
  }

  /** Assigning a column changes that column only, fills it with the value, and appends its
      header when it is new. */
  lemma AssignedEffect(f: Frame, name: string, value: string)
    requires Valid(f)
    ensures var g := Assigned(f, name, value);
      && name in g.data && (forall i :: 0 <= i < g.height ==> g.data[name][i] == Some(value))
      && (forall c :: c != name ==> (c in g.data <==> c in f.data))
      && (forall c :: c in f.data && c != name ==> g.data[c] == f.data[c])
      && g.columns == (if name in f.data then f.columns else f.columns + [name])
  {
  }

  /** `df.at[row, name] = value` on an existing row and column: that one cell changes. */
  function WithCell(f: Frame, row: nat, name: string, value: string): (g: Frame)
    requires Valid(f) && name in f.data && row < f.height
    ensures Valid(g) && g.height == f.height
  {
    Frame(f.columns, f.data[name := f.data[name][row := Some(value)]], f.height)
  }

  /** A DataFrame object updated in place (`translation_df_copy` in app.py). */
  class DataFrame {
    var columns: seq<string>
    var data: map<string, seq<Cell>>
    var height: nat

    /** The frame this object holds. */
    function Value(): Frame
      reads this
    {
      Frame(columns, data, height)
    }

    /** `df.copy()`: a new object holding the same frame. */
    constructor Copy(f: Frame)
      ensures Value() == f
    {
      columns, data, height := f.columns, f.data, f.height;
    }

    /** `self[name] = value`. */
    method AssignColumn(name: string, value: string)
      requires Valid(Value())
      modifies this
      ensures Value() == Assigned(old(Value()), name, value)
    {
      if name !in data {
        columns := columns + [name];
      }
      data := data[name := Repeat(Some(value), height)];
    }

    /** `self.at[row, name] = value`. */
    method SetAt(row: nat, name: string, value: string)
      requires Valid(Value()) && name in data && row < height
      modifies this
      ensures Value() == WithCell(old(Value()), row, name, value)
    {
      data := data[name := data[name][row := Some(value)]];
    }
  }
}
