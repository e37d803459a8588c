/** A guide x sample table: the pandas DataFrames the script passes between its stages. */
module Frames {
  import opened Wrappers

  /** One guide (the frame's index label) and its cells, one per column. */
  datatype Row = Row(guide: string, cells: seq<Option<real>>)

  /** Column labels and rows, in frame order. */
  datatype Frame = Frame(columns: seq<string>, rows: seq<Row>)

  /** Every row has one cell per column. */
  predicate WellFormed(f: Frame)
  {
    forall a :: 0 <= a < |f.rows| ==> |f.rows[a].cells| == |f.columns|
  }

  /** The frame's index (`df.index`). */
  function Guides(f: Frame): (gs: seq<string>)
    ensures |gs| == |f.rows|
    ensures forall a :: 0 <= a < |f.rows| ==> gs[a] == f.rows[a].guide
  {
    seq(|f.rows|, a requires 0 <= a < |f.rows| => f.rows[a].guide)
  }

  /** Column `j` as a series over the rows (`df[col]`). */
  function Column(f: Frame, j: nat): (col: seq<Option<real>>)
    requires WellFormed(f) && j < |f.columns|
    ensures |col| == |f.rows|
    ensures forall a :: 0 <= a < |f.rows| ==> col[a] == f.rows[a].cells[j]
  {
    seq(|f.rows|, a requires 0 <= a < |f.rows| => f.rows[a].cells[j])
  }

  /** A row of `n` missing cells. */
  function Missing(n: nat): (cells: seq<Option<real>>)
    ensures |cells| == n
    ensures forall b :: 0 <= b < n ==> cells[b].None?
  {
    seq(n, b => None)
  }

  /** The value of a defined cell, as a one-element sequence; nothing for a missing one. */
  function Defined(cell: Option<real>): (r: seq<real>)
    ensures cell.Some? ==> r == [cell.value]
    ensures cell.None? ==> r == []
  {
    if cell.Some? then [cell.value] else []
  }

  /** The defined values of a series, in order (`x[~np.isnan(x)]`). */
  function DefinedCells(cells: seq<Option<real>>): seq<real>
  {
    if cells == [] then []
    else
      DefinedCells(cells[..|cells| - 1]) + Defined(cells[|cells| - 1])
  }

  /** The defined values of a frame read row by row (`df.values.reshape(..)` without NaN). */
  function DefinedValues(rows: seq<Row>): seq<real>
  {
    if rows == [] then []
    else DefinedValues(rows[..|rows| - 1]) + DefinedCells(rows[|rows| - 1].cells)
  }

  lemma {:induction false} DefinedCellsIff(cells: seq<Option<real>>, v: real)
    ensures v in DefinedCells(cells) <==> exists b :: 0 <= b < |cells| && cells[b] == Some(v)
  {
    if cells != [] {
      var n := |cells| - 1;
      var init := cells[..n];
      DefinedCellsIff(init, v);
      assert DefinedCells(cells) == DefinedCells(init) + Defined(cells[n]);
      assert v in Defined(cells[n]) <==> cells[n] == Some(v);
      if b :| 0 <= b < |cells| && cells[b] == Some(v) {
        if b < n {
          assert init[b] == Some(v);
        }
      }
      if b :| 0 <= b < n && init[b] == Some(v) {
        assert cells[b] == Some(v);
      }
    }
  }

  /** A value is among the frame's defined values exactly when some cell holds it. */
  lemma {:induction false} DefinedValuesIff(rows: seq<Row>, v: real)
    ensures v in DefinedValues(rows) <==>
      exists a, b :: 0 <= a < |rows| && 0 <= b < |rows[a].cells| && rows[a].cells[b] == Some(v)
  {
    if rows != [] {
      var n := |rows| - 1;
      var init := rows[..n];
      var last := rows[n].cells;
      DefinedValuesIff(init, v);
      DefinedCellsIff(last, v);
      assert DefinedValues(rows) == DefinedValues(init) + DefinedCells(last);
      if a, b :| 0 <= a < |rows| && 0 <= b < |rows[a].cells| && rows[a].cells[b] == Some(v) {
        if a < n {
          assert init[a] == rows[a];
        }
      }
      if a, b :| 0 <= a < n && 0 <= b < |init[a].cells| && init[a].cells[b] == Some(v) {
        assert rows[a] == init[a];
      }
      if b :| 0 <= b < |last| && last[b] == Some(v) {
        assert rows[n].cells[b] == Some(v);
      }
    }
  }

  /** The frame has no defined value at all exactly when every cell is missing. */
  lemma {:induction false} DefinedValuesEmpty(rows: seq<Row>)
    ensures DefinedValues(rows) == [] <==>
      forall a, b :: 0 <= a < |rows| && 0 <= b < |rows[a].cells| ==> rows[a].cells[b].None?
  {
    if DefinedValues(rows) != [] {
      DefinedValuesIff(rows, DefinedValues(rows)[0]);
    } else {
      forall a, b | 0 <= a < |rows| && 0 <= b < |rows[a].cells| ensures rows[a].cells[b].None? {
        if rows[a].cells[b].Some? {
          DefinedValuesIff(rows, rows[a].cells[b].value);
        }
      }
    }
  }
}
