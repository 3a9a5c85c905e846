/**
 * The pandas tables the pipeline works on, as values, and the one table object
 * that the loader updates in place (`Frame`).
 *
 * A table has an ordered list of distinct column names, one cell sequence per
 * column, and a row index. A cell is a number, a piece of text, or missing (NaN).
 */
module Tables {

  datatype Cell = Missing | Num(value: real) | Text(text: string)

  predicate Distinct<T(==)>(s: seq<T>) {
    forall i, j | 0 <= i < j < |s| :: s[i] != s[j]
  }

  datatype Table = Table(columns: seq<string>, cells: map<string, seq<Cell>>, index: seq<int>) {

    /** Column names are distinct, every named column has cells, and all columns are as long as the index. */
    ghost predicate Valid() {
      && Distinct(columns)
      && cells.Keys == set c | c in columns
      && (forall c | c in cells :: |cells[c]| == |index|)
    }
  }

  /** `pd.DataFrame()`: no columns, no rows. */
  const EmptyTable: Table := Table([], map[], [])

  /** The default index 0, 1, ..., n - 1. */
  function RangeIndex(n: nat): (r: seq<int>)
    ensures |r| == n && forall k | 0 <= k < n :: r[k] == k
  {
    seq(n, k => k)
  }

  /** The name a column gets under a `rename(columns=m)` mapping: its entry, or itself. */
  function NewName(m: map<string, string>, c: string): string {
    if c in m then m[c] else c
  }

  function RenamedNames(cols: seq<string>, m: map<string, string>): (r: seq<string>)
    ensures |r| == |cols| && forall i | 0 <= i < |cols| :: r[i] == NewName(m, cols[i])
  {
    seq(|cols|, i requires 0 <= i < |cols| => NewName(m, cols[i]))
  }

  /**
   * `rename(columns=m)`: each column keeps its position and cells and takes its new
   * name; names outside `m`, and entries of `m` naming absent columns, change nothing.
   * Defined only when the new names stay distinct.
   */
  function Renamed(t: Table, m: map<string, string>): (r: Table)
    requires t.Valid() && Distinct(RenamedNames(t.columns, m))
    ensures r.Valid() && r.index == t.index && r.columns == RenamedNames(t.columns, m)
  {
    var names := RenamedNames(t.columns, m);
    forall c, d | c in t.cells && d in t.cells && NewName(m, c) == NewName(m, d)
      ensures c == d
    {
      var i :| 0 <= i < |t.columns| && t.columns[i] == c;
      var j :| 0 <= j < |t.columns| && t.columns[j] == d;
      assert names[i] == names[j];
    }
    var cells := map c | c in t.cells :: NewName(m, c) := t.cells[c];
    assert forall n :: n in cells <==> n in names by {
      forall n ensures n in cells <==> n in names {
        if n in names {
          var i :| 0 <= i < |names| && names[i] == n;
          assert t.columns[i] in t.cells;
        }
      }
    }
    Table(names, cells, t.index)
  }

  /** Under `rename`, every column's cells move to its new name. */
  lemma {:induction false} RenamedCells(t: Table, m: map<string, string>, c: string)
    requires t.Valid() && Distinct(RenamedNames(t.columns, m)) && c in t.cells
    ensures NewName(m, c) in Renamed(t, m).cells && Renamed(t, m).cells[NewName(m, c)] == t.cells[c]
  {
    forall d | d in t.cells && NewName(m, d) == NewName(m, c)
      ensures d == c
    {
      var names := RenamedNames(t.columns, m);
      var i :| 0 <= i < |t.columns| && t.columns[i] == c;
      var j :| 0 <= j < |t.columns| && t.columns[j] == d;
      assert names[i] == names[j];
    }
  }

  /** A renaming that moves no present column leaves the table as it was. */
  lemma {:induction false} RenameOfAbsentAliases(t: Table, m: map<string, string>)
    requires t.Valid()
    requires forall c | c in t.columns :: NewName(m, c) == c
    ensures Distinct(RenamedNames(t.columns, m)) && Renamed(t, m) == t
  {
    assert RenamedNames(t.columns, m) == t.columns;
    var r := Renamed(t, m);
    assert r.cells.Keys == t.cells.Keys;
    forall c | c in t.cells ensures r.cells[c] == t.cells[c] {
      assert NewName(m, c) == c;
    }
  }

  /**
   * `df[name] = vals`: an existing column is overwritten where it stands, a new one
   * is appended at the end; every other column and the index are kept.
   */
  function WithColumn(t: Table, name: string, vals: seq<Cell>): (r: Table)
    requires t.Valid() && |vals| == |t.index|
    ensures r.Valid() && r.index == t.index
    ensures r.columns == if name in t.cells then t.columns else t.columns + [name]
    ensures name in r.cells && r.cells[name] == vals
    ensures forall c | c in t.cells && c != name :: c in r.cells && r.cells[c] == t.cells[c]
  {
    Table(if name in t.cells then t.columns else t.columns + [name], t.cells[name := vals], t.index)
  }

  /** The sub-table `t[names]`, in the order of `names`. */
  function Select(t: Table, names: seq<string>): (r: Table)
    requires t.Valid() && Distinct(names) && forall c | c in names :: c in t.cells
    ensures r.Valid() && r.columns == names && r.index == t.index
    ensures forall c | c in names :: r.cells[c] == t.cells[c]
  {
    Table(names, map c | c in names :: t.cells[c], t.index)
  }

  /**
   * A pandas DataFrame that is updated in place. Its state is the value `Value()`;
   * `Rename` and `SetColumn` are the two in-place updates the loader performs.
   */
  class Frame {
    var columns: seq<string>
    var cells: map<string, seq<Cell>>
    var index: seq<int>

    function Value(): Table
      reads this
    {
      Table(columns, cells, index)
    }

    ghost predicate Valid()
      reads this
    {
      Value().Valid()
    }

    /** A fresh frame holding the sheet read from the workbook. */
    constructor (t: Table)
      requires t.Valid()
      ensures Valid() && Value() == t
    {
      columns, cells, index := t.columns, t.cells, t.index;
    }

    /** `df.rename(columns=m, inplace=True)`. */
    method Rename(m: map<string, string>)
      requires Valid() && Distinct(RenamedNames(columns, m))
      modifies this
      ensures Valid() && Value() == Renamed(old(Value()), m)
    {
      var r := Renamed(Value(), m);
      columns, cells, index := r.columns, r.cells, r.index;
    }

    /** `df[name] = vals`. */
    method SetColumn(name: string, vals: seq<Cell>)
      requires Valid() && |vals| == |index|
      modifies this
      ensures Valid() && Value() == WithColumn(old(Value()), name, vals)
    {
      var r := WithColumn(Value(), name, vals);
      columns, cells, index := r.columns, r.cells, r.index;
    }
  }
}
