/** Column-wise normalisation of a count matrix to 10,000 units per sample:
    `df.apply(lambda x: (x / x.sum()) * 1e4, axis=0)`. */
module Normalize {
  import opened Wrappers
  import opened Frames

  /** Normalisation has no value to give a cell when its column sums to zero while the
      cell does not: the script would divide a nonzero count by zero. */
  datatype NormalizeError = InfiniteShare(column: nat)

  /** The units every normalised column adds up to. */
  const Units: real := 10000.0

  /** The number a cell adds to its column's sum: pandas skips missing cells. */
  function CellValue(cell: Option<real>): real
  {
    match cell
    case None => 0.0
    case Some(x) => x
  }

  /** `x.sum()`: pandas adds the defined cells and skips the missing ones; a column with
      no defined cell sums to zero. */
  function Total(col: seq<Option<real>>): real
  {
    if col == [] then 0.0 else Total(col[..|col| - 1]) + CellValue(col[|col| - 1])
  }

  /** One cell after normalising by `total`: a missing cell stays missing, and so does a
      cell of a column summing to zero (0 / 0 is NaN). */
  function Share(cell: Option<real>, total: real): Option<real>
  {
    match cell
    case None => None
    case Some(x) => if total == 0.0 then None else Some((x / total) * Units)
  }

  /** The column sums to zero although one of its cells is nonzero. */
  predicate DividesByZero(col: seq<Option<real>>)
  {
    Total(col) == 0.0 && exists a :: 0 <= a < |col| && CellValue(col[a]) != 0.0
  }

  /** Every cell of a column normalised by the same `total`. */
  function SharesOf(col: seq<Option<real>>, total: real): (r: seq<Option<real>>)
    ensures |r| == |col|
    ensures forall a :: 0 <= a < |col| ==> r[a] == Share(col[a], total)
  {
    seq(|col|, a requires 0 <= a < |col| => Share(col[a], total))
  }

  /** `(x / x.sum()) * 1e4` for one column. */
  function NormalizeColumn(col: seq<Option<real>>): seq<Option<real>>
  {
    SharesOf(col, Total(col))
  }

  /** Column `j`'s total. */
  function ColumnTotal(f: Frame, j: nat): real
    requires WellFormed(f) && j < |f.columns|
  {
    Total(Column(f, j))
  }

  /** The first column that divides by zero, scanning from column `j`. */
  function FirstZeroColumn(f: Frame, j: nat): (r: Option<nat>)
    requires WellFormed(f) && j <= |f.columns|
    ensures r.Some? ==> j <= r.value < |f.columns| && DividesByZero(Column(f, r.value))
    ensures r.Some? ==> forall k :: j <= k < r.value ==> !DividesByZero(Column(f, k))
    ensures r.None? ==> forall k :: j <= k < |f.columns| ==> !DividesByZero(Column(f, k))
    decreases |f.columns| - j
  {
    if j == |f.columns| then None
    else if DividesByZero(Column(f, j)) then Some(j)
    else FirstZeroColumn(f, j + 1)
  }

  /** `normalize_by_total(df)`, also written inline for the three count matrices. */
  function NormalizeByTotal(f: Frame): (r: Result<Frame, NormalizeError>)
    requires WellFormed(f)
    ensures r.Failure? ==> r.error.column < |f.columns| && DividesByZero(Column(f, r.error.column))
    ensures r.Failure? ==> forall k :: 0 <= k < r.error.column ==> !DividesByZero(Column(f, k))
    ensures r.Success? ==> forall k :: 0 <= k < |f.columns| ==> !DividesByZero(Column(f, k))
    ensures r.Success? ==> WellFormed(r.value) && r.value.columns == f.columns && Guides(r.value) == Guides(f)
  {
    match FirstZeroColumn(f, 0)
    case Some(j) => Failure(InfiniteShare(j))
    case None =>
      Success(Frame(f.columns, seq(|f.rows|, a requires 0 <= a < |f.rows| =>
        Row(f.rows[a].guide, seq(|f.columns|, b requires 0 <= b < |f.columns| =>
          Share(f.rows[a].cells[b], ColumnTotal(f, b)))))))
  }

  // ---------------------------------------------------------------------------
  // One column
  // ---------------------------------------------------------------------------

  /** A column of missing cells sums to zero. */
  lemma {:induction false} TotalMissing(col: seq<Option<real>>)
    requires forall a :: 0 <= a < |col| ==> col[a].None?
    ensures Total(col) == 0.0
  {
    if col != [] {
      TotalMissing(col[..|col| - 1]);
    }
  }

  /** What a cell adds to the normalised column's sum. */
  lemma CellShare(cell: Option<real>, t: real)
    requires t != 0.0
    ensures CellValue(Share(cell, t)) == (CellValue(cell) / t) * Units
  {
  }

  lemma ShareDistributes(x: real, y: real, t: real)
    requires t != 0.0
    ensures (x / t) * Units + (y / t) * Units == ((x + y) / t) * Units
  {
  }

  /** Dividing every cell by `t` divides the total by `t`. */
  lemma {:induction false} TotalOfShares(col: seq<Option<real>>, t: real)
    requires t != 0.0
    ensures Total(SharesOf(col, t)) == (Total(col) / t) * Units
  {
    if col != [] {
      var n := |col| - 1;
      var s := SharesOf(col, t);
      assert s[..n] == SharesOf(col[..n], t);
      TotalOfShares(col[..n], t);
      CellShare(col[n], t);
      ShareDistributes(Total(col[..n]), CellValue(col[n]), t);
    }
  }

  /** The defined cells of a normalised column with a nonzero total add up to 10,000. */
  lemma NormalizedTotal(col: seq<Option<real>>)
    requires Total(col) != 0.0
    ensures Total(NormalizeColumn(col)) == Units
  {
    TotalOfShares(col, Total(col));
    WholeShare(Total(col));
  }

  lemma WholeShare(t: real)
    requires t != 0.0
    ensures (t / t) * Units == Units
  {
  }

  /** A normalised column either sums to 10,000 or has no defined cell, and normalising it
      again leaves it as it is. */
  lemma NormalizeColumnIdempotent(col: seq<Option<real>>)
    ensures !DividesByZero(NormalizeColumn(col))
    ensures NormalizeColumn(NormalizeColumn(col)) == NormalizeColumn(col)
  {
    var out := NormalizeColumn(col);
    if Total(col) == 0.0 {
      TotalMissing(out);
    } else {
      NormalizedTotal(col);
    }
  }

  // ---------------------------------------------------------------------------
  // The whole frame
  // ---------------------------------------------------------------------------

  /** The normalisation fails exactly when some column sums to zero while holding a nonzero
      cell; otherwise it keeps the guides and the columns, and normalises each column on
      its own. */
  lemma NormalizeColumns(f: Frame)
    requires WellFormed(f)
    ensures NormalizeByTotal(f).Failure? <==> exists j :: 0 <= j < |f.columns| && DividesByZero(Column(f, j))
    ensures NormalizeByTotal(f).Success? ==>
      var out := NormalizeByTotal(f).value;
      && WellFormed(out) && out.columns == f.columns && Guides(out) == Guides(f)
      && forall b :: 0 <= b < |f.columns| ==> Column(out, b) == NormalizeColumn(Column(f, b))
  {
    if NormalizeByTotal(f).Failure? {
      var j := FirstZeroColumn(f, 0).value;
      assert DividesByZero(Column(f, j));
    } else {
      var out := NormalizeByTotal(f).value;
      forall b | 0 <= b < |f.columns| ensures Column(out, b) == NormalizeColumn(Column(f, b)) {
      }
    }
  }

  /** Two well-formed frames with the same labels and the same columns are equal. */
  lemma FrameByColumns(f: Frame, g: Frame)
    requires WellFormed(f) && WellFormed(g) && f.columns == g.columns && Guides(f) == Guides(g)
    requires forall b :: 0 <= b < |f.columns| ==> Column(f, b) == Column(g, b)
    ensures f == g
  {
    forall a | 0 <= a < |f.rows| ensures f.rows[a] == g.rows[a] {
      assert f.rows[a].guide == Guides(f)[a] == Guides(g)[a] == g.rows[a].guide;
      forall b | 0 <= b < |f.columns| ensures f.rows[a].cells[b] == g.rows[a].cells[b] {
        assert Column(f, b)[a] == Column(g, b)[a];
      }
    }
  }

  /** A missing cell stays missing; in a column whose total is not zero a defined cell stays
      defined, and in a column summing to zero every cell becomes missing. */
  lemma NormalizeKeepsMissing(f: Frame, a: nat, b: nat)
    requires WellFormed(f) && NormalizeByTotal(f).Success?
    requires a < |f.rows| && b < |f.columns|
    ensures f.rows[a].cells[b].None? ==> NormalizeByTotal(f).value.rows[a].cells[b].None?
    ensures ColumnTotal(f, b) != 0.0 ==>
      (NormalizeByTotal(f).value.rows[a].cells[b].None? <==> f.rows[a].cells[b].None?)
    ensures ColumnTotal(f, b) == 0.0 ==> NormalizeByTotal(f).value.rows[a].cells[b].None?
  {
  }

  /** Normalising a column whose total is not zero makes its defined cells add up to 10,000. */
  lemma NormalizedColumnSums(f: Frame, b: nat)
    requires WellFormed(f) && NormalizeByTotal(f).Success?
    requires b < |f.columns| && ColumnTotal(f, b) != 0.0
    ensures ColumnTotal(NormalizeByTotal(f).value, b) == Units
  {
    NormalizeColumns(f);
    NormalizedTotal(Column(f, b));
  }

  lemma ShareMonotone(x: real, y: real, t: real)
    requires t > 0.0
    ensures (x / t) * Units < (y / t) * Units <==> x < y
  {
    assert (y / t) * Units - (x / t) * Units == ((y - x) / t) * Units;
  }

  /** In a column with a positive total, normalising keeps the order of the defined cells:
      one cell is below another after normalising exactly when it was before. */
  lemma NormalizeKeepsOrder(f: Frame, a: nat, a': nat, b: nat)
    requires WellFormed(f) && NormalizeByTotal(f).Success?
    requires a < |f.rows| && a' < |f.rows| && b < |f.columns| && ColumnTotal(f, b) > 0.0
    requires f.rows[a].cells[b].Some? && f.rows[a'].cells[b].Some?
    ensures NormalizeByTotal(f).value.rows[a].cells[b].Some?
    ensures NormalizeByTotal(f).value.rows[a'].cells[b].Some?
    ensures NormalizeByTotal(f).value.rows[a].cells[b].value < NormalizeByTotal(f).value.rows[a'].cells[b].value
        <==> f.rows[a].cells[b].value < f.rows[a'].cells[b].value
  {
    var t := ColumnTotal(f, b);
    var x, y := f.rows[a].cells[b].value, f.rows[a'].cells[b].value;
    ShareMonotone(x, y, t);
  }

  /** Normalising twice is normalising once. */
  lemma NormalizeIdempotent(f: Frame)
    requires WellFormed(f) && NormalizeByTotal(f).Success?
    ensures WellFormed(NormalizeByTotal(f).value)
    ensures NormalizeByTotal(NormalizeByTotal(f).value) == NormalizeByTotal(f)
  {
    NormalizeColumns(f);
    var out := NormalizeByTotal(f).value;
    forall b | 0 <= b < |f.columns|
      ensures !DividesByZero(Column(out, b))
      ensures NormalizeColumn(Column(out, b)) == Column(out, b)
    {
      NormalizeColumnIdempotent(Column(f, b));
    }
    NormalizeColumns(out);
    FrameByColumns(NormalizeByTotal(out).value, out);
  }

  /** A worked column: counts 1, missing and 3 become 2,500, missing and 7,500. */
  lemma NormalizeExample()
    ensures NormalizeColumn([Some(1.0), None, Some(3.0)]) == [Some(2500.0), None, Some(7500.0)]
  {
    var col := [Some(1.0), None, Some(3.0)];
    assert col[..2] == [Some(1.0), None];
    assert col[..2][..1] == [Some(1.0)];
    assert col[..2][..1][..0] == [];
    assert Total([Some(1.0)]) == 1.0;
    assert Total([Some(1.0), None]) == 1.0;
    assert Total(col) == 4.0;
  }
}
