/** `filter_gRNAs`: drops unused guides, masks guides of the opposite sub-library in
    every sample column and masks every cell not above a noise threshold taken from a
    "false assignment" reference copy of the frame. */
module Filter {
  import opened Wrappers
  import opened Text
  import opened Seqs
  import opened Frames
  import opened Percentile

  /** The pre-screen column that the filter always removes. */
  const PlasmidEss: string := "plasmid_pool_ESS"

  /** The guides that were not used in the screen: the list used when the caller passes none. */
  const DefaultFilterOut: seq<string> := [
    "CTRL00717", "CTRL00728", "CTRL00783", "CTRL00801",
    "CTRL00851", "CTRL00859", "CTRL00868", "CTRL00872",
    "CTRL00878", "CTRL00881", "CTRL00969", "CTRL00972",
    "CTRL00983",
    "Essential_library_ABL1_1", "Essential_library_ABL1_2", "Essential_library_ABL1_3",
    "Essential_library_MAPK1_1", "Essential_library_MAPK1_2", "Essential_library_MAPK1_3",
    "Essential_library_GATA1_1", "Essential_library_GATA1_2", "Essential_library_GATA1_3",
    "Essential_library_BRCA2_1", "Essential_library_BRCA2_2", "Essential_library_BRCA2_3",
    "Essential_library_PARP1_1", "Essential_library_PARP1_2", "Essential_library_PARP1_3"]

  /** `np.percentile` of an empty selection raises: the reference had no defined cell. */
  datatype FilterError = NoNoiseValues

  /** The `filter_out` argument, or the default list when it is `None`. */
  function FilterList(filterOut: Option<seq<string>>): seq<string>
  {
    match filterOut
    case None => DefaultFilterOut
    case Some(listed) => listed
  }

  /** A sample column of the TCR (Jurkat) sub-library: this test is made first. */
  predicate IsTcrSample(col: string)
  {
    Contains(col, "TCR") || Contains(col, "Jurkat")
  }

  /** A sample column of the WNT (HEK) sub-library. */
  predicate IsWntSample(col: string)
  {
    Contains(col, "WNT") || Contains(col, "HEK")
  }

  /** A `WNT`/`HEK` column that the `TCR`/`Jurkat` test, made first, does not claim. */
  predicate OnlyWntSample(col: string)
  {
    !IsTcrSample(col) && IsWntSample(col)
  }

  /** A positive or negative control guide (`str.contains("Essential|CTRL")`). */
  predicate IsControlGuide(guide: string)
  {
    Contains(guide, "Essential") || Contains(guide, "CTRL")
  }

  /** The working frame masks guides of the other sub-library than the column's. */
  predicate OppositeMasked(guide: string, col: string)
  {
    if IsTcrSample(col) then Contains(guide, "Wnt")
    else IsWntSample(col) && Contains(guide, "Tcr")
  }

  /** The reference frame masks guides of the column's own sub-library. */
  predicate SameMasked(guide: string, col: string)
  {
    if IsTcrSample(col) then Contains(guide, "Tcr")
    else IsWntSample(col) && Contains(guide, "Wnt")
  }

  predicate LibraryMasked(guide: string, col: string, working: bool)
  {
    if working then OppositeMasked(guide, col) else SameMasked(guide, col)
  }

  /** The guide tag the column loop masks in column `col` of the working frame
      (`working`) or of the reference frame. */
  function StepTag(col: string, working: bool): Option<string>
  {
    if IsTcrSample(col) then Some(if working then "Wnt" else "Tcr")
    else if IsWntSample(col) then Some(if working then "Tcr" else "Wnt")
    else None
  }

  // ---------------------------------------------------------------------------
  // The pandas operations the filter applies, one function each

  /** `df.ix[df.index[~df.index.isin(filter_out)]]` */
  function DropGuides(f: Frame, listed: seq<string>): (r: Frame)
    requires WellFormed(f)
    ensures WellFormed(r) && r.columns == f.columns
  {
    Frame(f.columns, Select(f.rows, TrueIndices(NotListedMask(Guides(f), listed))))
  }

  /** `filtered.loc[others, :] = nan` for the control guides not in `listed`. */
  function MaskControls(f: Frame, listed: seq<string>): (r: Frame)
    requires WellFormed(f)
    ensures WellFormed(r) && r.columns == f.columns && |r.rows| == |f.rows|
    ensures forall a :: 0 <= a < |f.rows| ==> r.rows[a].guide == f.rows[a].guide
  {
    Frame(f.columns, seq(|f.rows|, a requires 0 <= a < |f.rows| =>
      var row := f.rows[a];
      if IsControlGuide(row.guide) && row.guide !in listed then Row(row.guide, Missing(|row.cells|))
      else row))
  }

  /** `f.loc[guides containing tag, f.columns[j]] = nan` */
  function MaskTagInColumn(f: Frame, j: nat, tag: string): (r: Frame)
    requires WellFormed(f) && j < |f.columns|
    ensures WellFormed(r) && r.columns == f.columns && |r.rows| == |f.rows|
  {
    Frame(f.columns, seq(|f.rows|, a requires 0 <= a < |f.rows| =>
      var row := f.rows[a];
      if Contains(row.guide, tag) then Row(row.guide, row.cells[j := None]) else row))
  }

  /** `f.drop(name, axis=1)`: removes every column labelled `name`. */
  function DropColumn(f: Frame, name: string): (r: Frame)
    requires WellFormed(f)
    ensures WellFormed(r) && |r.rows| == |f.rows|
  {
    var ci := TrueIndices(NotListedMask(f.columns, [name]));
    Frame(Select(f.columns, ci), seq(|f.rows|, a requires 0 <= a < |f.rows| =>
      Row(f.rows[a].guide, Select(f.rows[a].cells, ci))))
  }

  /** A cell kept by `df.where(df > bound, nan)`. */
  function AboveBound(v: Option<real>, bound: real): Option<real>
  {
    if v.Some? && v.value > bound then v else None
  }

  /** `df.where(df > bound, nan)` */
  function ApplyThreshold(f: Frame, bound: real): (r: Frame)
    requires WellFormed(f)
    ensures WellFormed(r) && r.columns == f.columns && |r.rows| == |f.rows|
  {
    Frame(f.columns, seq(|f.rows|, a requires 0 <= a < |f.rows| =>
      Row(f.rows[a].guide, seq(|f.columns|, b requires 0 <= b < |f.columns| =>
        AboveBound(f.rows[a].cells[b], bound)))))
  }

  /** The frame after the column loop has handled columns `0 .. upto - 1`. */
  function MaskLibrariesUpTo(f: Frame, upto: nat, working: bool): (r: Frame)
    requires WellFormed(f) && upto <= |f.columns|
    ensures WellFormed(r) && r.columns == f.columns && |r.rows| == |f.rows|
  {
    Frame(f.columns, seq(|f.rows|, a requires 0 <= a < |f.rows| =>
      Row(f.rows[a].guide, seq(|f.columns|, b requires 0 <= b < |f.columns| =>
        if b < upto && LibraryMasked(f.rows[a].guide, f.columns[b], working) then None
        else f.rows[a].cells[b]))))
  }

  /** Before the first turn of the column loop nothing is masked. */
  lemma MaskNothing(f: Frame, working: bool)
    requires WellFormed(f)
    ensures MaskLibrariesUpTo(f, 0, working) == f
  {
    var r := MaskLibrariesUpTo(f, 0, working);
    forall a | 0 <= a < |f.rows| ensures r.rows[a] == f.rows[a] {
      assert r.rows[a].cells == f.rows[a].cells;
    }
  }

  /** One turn of the column loop extends the handled prefix by column `j`: it masks
      the guides carrying the column's tag, if the column has one. */
  lemma MaskStep(f: Frame, j: nat, working: bool, current: Frame)
    requires WellFormed(f) && j < |f.columns|
    requires current == MaskLibrariesUpTo(f, j, working)
    ensures StepTag(f.columns[j], working).Some? ==>
      MaskTagInColumn(current, j, StepTag(f.columns[j], working).value) == MaskLibrariesUpTo(f, j + 1, working)
    ensures StepTag(f.columns[j], working).None? ==> current == MaskLibrariesUpTo(f, j + 1, working)
  {
    var after := MaskLibrariesUpTo(f, j + 1, working);
    var expected := match StepTag(f.columns[j], working)
      case None => current
      case Some(tag) => MaskTagInColumn(current, j, tag);
    forall a | 0 <= a < |f.rows| ensures after.rows[a] == expected.rows[a] {
      assert after.rows[a].cells == expected.rows[a].cells;
    }
  }

  /** Dropping a column that the frame does not have changes nothing. */
  lemma DropAbsentColumn(f: Frame, name: string)
    requires WellFormed(f) && name !in f.columns
    ensures DropColumn(f, name) == f
  {
    var mask := NotListedMask(f.columns, [name]);
    var ci := TrueIndices(mask);
    TrueIndicesAllTrue(mask);
    var r := DropColumn(f, name);
    assert r.columns == f.columns;
    forall a | 0 <= a < |f.rows| ensures r.rows[a] == f.rows[a] {
      assert r.rows[a].cells == f.rows[a].cells;
    }
  }

  /** A mask that holds everywhere selects every position, in order. */
  lemma {:induction false} TrueIndicesAllTrue(mask: seq<bool>)
    requires forall j :: 0 <= j < |mask| ==> mask[j]
    ensures |TrueIndices(mask)| == |mask|
    ensures forall k :: 0 <= k < |mask| ==> TrueIndices(mask)[k] == k
  {
    if mask != [] {
      TrueIndicesAllTrue(mask[..|mask| - 1]);
    }
  }

  // ---------------------------------------------------------------------------
  // The result, stated cell by cell

  /** Rows of the input that the filter keeps: those not in the filter-out list. */
  function KeptRows(f: Frame, listed: seq<string>): seq<nat>
  {
    TrueIndices(NotListedMask(Guides(f), listed))
  }

  /** Columns of the input that the filter keeps: all but `plasmid_pool_ESS`. */
  function KeptColumns(f: Frame): seq<nat>
  {
    TrueIndices(NotListedMask(f.columns, [PlasmidEss]))
  }

  /** A cell of the working frame once the opposite sub-library is masked. */
  function WorkingCell(guide: string, col: string, v: Option<real>): Option<real>
  {
    if OppositeMasked(guide, col) then None else v
  }

  /** A cell of the "false assignment" reference frame. */
  function ReferenceCell(guide: string, listed: seq<string>, col: string, v: Option<real>): Option<real>
  {
    if (IsControlGuide(guide) && guide !in listed) || SameMasked(guide, col) then None else v
  }

  /** The working frame before thresholding, in closed form. */
  function Working(f: Frame, listed: seq<string>): (r: Frame)
    requires WellFormed(f)
    ensures WellFormed(r)
  {
    var ri := KeptRows(f, listed);
    var ci := KeptColumns(f);
    Frame(Select(f.columns, ci), seq(|ri|, a requires 0 <= a < |ri| =>
      var row := f.rows[ri[a]];
      Row(row.guide, seq(|ci|, b requires 0 <= b < |ci| =>
        WorkingCell(row.guide, f.columns[ci[b]], row.cells[ci[b]])))))
  }

  /** The reference frame whose defined cells are the noise sample, in closed form:
      it keeps every row, the unused guides included. */
  function Reference(f: Frame, listed: seq<string>): (r: Frame)
    requires WellFormed(f)
    ensures WellFormed(r)
  {
    var ci := KeptColumns(f);
    Frame(Select(f.columns, ci), seq(|f.rows|, a requires 0 <= a < |f.rows| =>
      var row := f.rows[a];
      Row(row.guide, seq(|ci|, b requires 0 <= b < |ci| =>
        ReferenceCell(row.guide, listed, f.columns[ci[b]], row.cells[ci[b]])))))
  }

  /** The noise sample: the defined cells of the reference frame. */
  function NoiseValues(f: Frame, listed: seq<string>): seq<real>
    requires WellFormed(f)
  {
    DefinedValues(Reference(f, listed).rows)
  }

  /** The noise threshold (`lower_bound`). */
  function Threshold(f: Frame, listed: seq<string>): real
    requires WellFormed(f) && |NoiseValues(f, listed)| > 0
  {
    Percentile95(NoiseValues(f, listed))
  }

  /** What `filter_gRNAs(f, listed)` returns. */
  function FilterSpec(f: Frame, listed: seq<string>): (r: Result<Frame, FilterError>)
    requires WellFormed(f)
    ensures r.Success? ==> WellFormed(r.value) && |r.value.rows| <= |f.rows| && |r.value.columns| <= |f.columns|
  {
    if |NoiseValues(f, listed)| == 0 then Failure(NoNoiseValues)
    else Success(ApplyThreshold(Working(f, listed), Threshold(f, listed)))
  }

  /** The working frame after the loop and the column drop is the closed form. */
  lemma WorkingSteps(f: Frame, listed: seq<string>)
    requires WellFormed(f)
    ensures DropColumn(MaskLibrariesUpTo(DropGuides(f, listed), |f.columns|, true), PlasmidEss)
         == Working(f, listed)
  {
    var g := DropGuides(f, listed);
    var m := MaskLibrariesUpTo(g, |f.columns|, true);
    var d := DropColumn(m, PlasmidEss);
    var w := Working(f, listed);
    var ri := KeptRows(f, listed);
    var ci := KeptColumns(f);
    assert |d.rows| == |w.rows|;
    forall a | 0 <= a < |w.rows| ensures d.rows[a] == w.rows[a] {
      assert g.rows[a] == f.rows[ri[a]];
      assert d.rows[a].cells == w.rows[a].cells;
    }
  }

  /** The reference frame after the masks and the column drop is the closed form. */
  lemma ReferenceSteps(f: Frame, listed: seq<string>)
    requires WellFormed(f)
    ensures DropColumn(MaskLibrariesUpTo(MaskControls(f, listed), |f.columns|, false), PlasmidEss)
         == Reference(f, listed)
  {
    var c := MaskControls(f, listed);
    var m := MaskLibrariesUpTo(c, |f.columns|, false);
    var d := DropColumn(m, PlasmidEss);
    var r := Reference(f, listed);
    var ci := KeptColumns(f);
    forall a | 0 <= a < |f.rows| ensures d.rows[a] == r.rows[a] {
      assert d.rows[a].cells == r.rows[a].cells;
    }
  }

  /** What the column loop leaves, once `plasmid_pool_ESS` is dropped if present, is
      the closed form of the working and of the reference frame. */
  lemma LoopResults(f: Frame, listed: seq<string>, work: Frame, filtered: Frame, n: nat)
    requires WellFormed(f) && n == |f.columns|
    requires work == MaskLibrariesUpTo(DropGuides(f, listed), n, true)
    requires filtered == MaskLibrariesUpTo(MaskControls(f, listed), n, false)
    ensures (if PlasmidEss in work.columns then DropColumn(work, PlasmidEss) else work) == Working(f, listed)
    ensures (if PlasmidEss in work.columns then DropColumn(filtered, PlasmidEss) else filtered)
         == Reference(f, listed)
  {
    WorkingSteps(f, listed);
    ReferenceSteps(f, listed);
    if PlasmidEss !in work.columns {
      DropAbsentColumn(work, PlasmidEss);
      DropAbsentColumn(filtered, PlasmidEss);
    }
  }

  /** The column loop of `filter_gRNAs`: in each `TCR`/`Jurkat` column it masks the
      `Wnt` guides of the working frame and the `Tcr` guides of the reference frame; in
      each other `WNT`/`HEK` column it masks the `Tcr` guides of the working frame and the
      `Wnt` guides of the reference frame. */
  method MaskSubLibraries(work0: Frame, filtered0: Frame) returns (work: Frame, filtered: Frame)
    requires WellFormed(work0) && WellFormed(filtered0) && filtered0.columns == work0.columns
    ensures work == MaskLibrariesUpTo(work0, |work0.columns|, true)
    ensures filtered == MaskLibrariesUpTo(filtered0, |work0.columns|, false)
  {
    work, filtered := work0, filtered0;
    MaskNothing(work0, true);
    MaskNothing(filtered0, false);
    var j := 0;
    while j < |work.columns|
      invariant work.columns == work0.columns && j <= |work0.columns|
      invariant work == MaskLibrariesUpTo(work0, j, true)
      invariant filtered == MaskLibrariesUpTo(filtered0, j, false)
    {
      var col := work.columns[j];
      MaskStep(work0, j, true, work);
      MaskStep(filtered0, j, false, filtered);
      if IsTcrSample(col) {
        work := MaskTagInColumn(work, j, "Wnt");
        filtered := MaskTagInColumn(filtered, j, "Tcr");
      } else if IsWntSample(col) {
        work := MaskTagInColumn(work, j, "Tcr");
        filtered := MaskTagInColumn(filtered, j, "Wnt");
      }
      j := j + 1;
    }
  }

  /** `filter_gRNAs(df, filter_out)`, step by step as the script runs it. */
  method FilterGuides(df: Frame, filterOut: Option<seq<string>>) returns (r: Result<Frame, FilterError>)
    requires WellFormed(df)
    ensures r == FilterSpec(df, FilterList(filterOut))
  {
    var listed := FilterList(filterOut);
    var filtered := df;
    var work := DropGuides(df, listed);
    filtered := MaskControls(filtered, listed);
    work, filtered := MaskSubLibraries(work, filtered);
    LoopResults(df, listed, work, filtered, |df.columns|);
    if PlasmidEss in work.columns {
      work := DropColumn(work, PlasmidEss);
      filtered := DropColumn(filtered, PlasmidEss);
    }
    var noise := DefinedValues(filtered.rows);
    if |noise| == 0 {
      r := Failure(NoNoiseValues);
      return;
    }
    var lowerBound := Percentile95(noise);
    r := Success(ApplyThreshold(work, lowerBound));
  }

  // ---------------------------------------------------------------------------
  // Properties of the filter's result

  /** The output keeps exactly the guides not in the filter-out list and the columns
      other than `plasmid_pool_ESS`, each in its original order. */
  lemma {:induction false} FilterKeepsRowsAndColumns(f: Frame, listed: seq<string>)
    requires WellFormed(f) && FilterSpec(f, listed).Success?
    ensures WellFormed(FilterSpec(f, listed).value)
    ensures Guides(FilterSpec(f, listed).value) == Unlisted(Guides(f), listed)
    ensures FilterSpec(f, listed).value.columns == Unlisted(f.columns, [PlasmidEss])
  {
    var out := FilterSpec(f, listed).value;
    var ri := KeptRows(f, listed);
    SelectUnlisted(Guides(f), listed);
    SelectUnlisted(f.columns, [PlasmidEss]);
    assert Guides(out) == Select(Guides(f), ri);
  }

  /** Output row `a` is input row `KeptRows[a]` and output column `b` is input column
      `KeptColumns[b]`; the cell there is the input cell, unless the guide belongs to
      the column's opposite sub-library or the value is not above the threshold. */
  lemma FilterCell(f: Frame, listed: seq<string>, a: nat, b: nat)
    requires WellFormed(f) && FilterSpec(f, listed).Success?
    requires a < |KeptRows(f, listed)| && b < |KeptColumns(f)|
    ensures |FilterSpec(f, listed).value.rows| == |KeptRows(f, listed)|
    ensures |FilterSpec(f, listed).value.columns| == |KeptColumns(f)|
    ensures
      var out := FilterSpec(f, listed).value;
      var src := f.rows[KeptRows(f, listed)[a]];
      var col := f.columns[KeptColumns(f)[b]];
      && out.rows[a].guide == src.guide
      && out.columns[b] == col
      && out.rows[a].cells[b] ==
           if OppositeMasked(src.guide, col) then None
           else AboveBound(src.cells[KeptColumns(f)[b]], Threshold(f, listed))
  {
  }

  /** Filtering never invents a value: every defined output cell holds the input's value
      at the same guide and column, and that value is above the threshold. */
  lemma FilterNeverInvents(f: Frame, listed: seq<string>)
    requires WellFormed(f) && FilterSpec(f, listed).Success?
    ensures forall a, b ::
      0 <= a < |FilterSpec(f, listed).value.rows| && 0 <= b < |FilterSpec(f, listed).value.columns| &&
      FilterSpec(f, listed).value.rows[a].cells[b].Some? ==>
        && FilterSpec(f, listed).value.rows[a].cells[b]
             == f.rows[KeptRows(f, listed)[a]].cells[KeptColumns(f)[b]]
        && FilterSpec(f, listed).value.rows[a].cells[b].value > Threshold(f, listed)
  {
    forall a, b |
      0 <= a < |FilterSpec(f, listed).value.rows| && 0 <= b < |FilterSpec(f, listed).value.columns|
      ensures FilterSpec(f, listed).value.rows[a].cells[b].Some? ==>
        && FilterSpec(f, listed).value.rows[a].cells[b]
             == f.rows[KeptRows(f, listed)[a]].cells[KeptColumns(f)[b]]
        && FilterSpec(f, listed).value.rows[a].cells[b].value > Threshold(f, listed)
    {
      FilterCell(f, listed, a, b);
    }
  }

  /** A cell of a kept guide and column survives exactly when its guide is not of the
      column's opposite sub-library and its value is above the threshold; in particular
      every value at or below the threshold becomes missing. */
  lemma FilterKeepsExactly(f: Frame, listed: seq<string>, a: nat, b: nat)
    requires WellFormed(f) && FilterSpec(f, listed).Success?
    requires a < |KeptRows(f, listed)| && b < |KeptColumns(f)|
    ensures
      var src := f.rows[KeptRows(f, listed)[a]];
      var col := f.columns[KeptColumns(f)[b]];
      var v := src.cells[KeptColumns(f)[b]];
      FilterSpec(f, listed).value.rows[a].cells[b].Some? <==>
        !OppositeMasked(src.guide, col) && v.Some? && v.value > Threshold(f, listed)
  {
    FilterCell(f, listed, a, b);
  }

  /** Sub-library exclusivity, first half: a `Wnt` guide is missing in every `TCR`/`Jurkat`
      column of the result. */
  lemma WntMaskedInTcrSamples(f: Frame, listed: seq<string>)
    requires WellFormed(f) && FilterSpec(f, listed).Success?
    ensures var out := FilterSpec(f, listed).value;
      forall a, b :: 0 <= a < |out.rows| && 0 <= b < |out.columns| ==>
        Contains(out.rows[a].guide, "Wnt") && IsTcrSample(out.columns[b]) ==> out.rows[a].cells[b].None?
  {
    var out := FilterSpec(f, listed).value;
    forall a, b | 0 <= a < |out.rows| && 0 <= b < |out.columns|
      ensures Contains(out.rows[a].guide, "Wnt") && IsTcrSample(out.columns[b]) ==> out.rows[a].cells[b].None?
    {
      FilterCell(f, listed, a, b);
    }
  }

  /** Sub-library exclusivity, second half: a `Tcr` guide is missing in every other column
      of the result that names `WNT` or `HEK`. */
  lemma TcrMaskedInWntSamples(f: Frame, listed: seq<string>)
    requires WellFormed(f) && FilterSpec(f, listed).Success?
    ensures var out := FilterSpec(f, listed).value;
      forall a, b :: 0 <= a < |out.rows| && 0 <= b < |out.columns| ==>
        Contains(out.rows[a].guide, "Tcr") && OnlyWntSample(out.columns[b]) ==> out.rows[a].cells[b].None?
  {
    var out := FilterSpec(f, listed).value;
    forall a, b | 0 <= a < |out.rows| && 0 <= b < |out.columns|
      ensures Contains(out.rows[a].guide, "Tcr") && OnlyWntSample(out.columns[b]) ==> out.rows[a].cells[b].None?
    {
      FilterCell(f, listed, a, b);
    }
  }

  /** The `TCR`/`Jurkat` test is made first: in a column that names both sub-libraries,
      a `Tcr` guide that is not also a `Wnt` guide keeps its value when above the threshold. */
  lemma TcrTestTakesPriority(f: Frame, listed: seq<string>, a: nat, b: nat)
    requires WellFormed(f) && FilterSpec(f, listed).Success?
    requires a < |KeptRows(f, listed)| && b < |KeptColumns(f)|
    requires IsTcrSample(f.columns[KeptColumns(f)[b]]) && IsWntSample(f.columns[KeptColumns(f)[b]])
    requires !Contains(f.rows[KeptRows(f, listed)[a]].guide, "Wnt")
    requires f.rows[KeptRows(f, listed)[a]].cells[KeptColumns(f)[b]].Some?
    requires f.rows[KeptRows(f, listed)[a]].cells[KeptColumns(f)[b]].value > Threshold(f, listed)
    ensures FilterSpec(f, listed).value.rows[a].cells[b]
         == f.rows[KeptRows(f, listed)[a]].cells[KeptColumns(f)[b]]
  {
    FilterCell(f, listed, a, b);
  }

  /** The reference frame keeps every input row and the same columns as the output. In it
      no control guide outside the filter-out list is defined, a `Tcr` guide is missing in
      every `TCR`/`Jurkat` column and a `Wnt` guide in every other `WNT`/`HEK` column;
      every defined cell holds the input's value. */
  lemma ReferenceMasks(f: Frame, listed: seq<string>)
    requires WellFormed(f)
    ensures Guides(Reference(f, listed)) == Guides(f)
    ensures Reference(f, listed).columns == Unlisted(f.columns, [PlasmidEss])
    ensures forall a, b :: 0 <= a < |f.rows| && 0 <= b < |KeptColumns(f)| ==>
      var g := f.rows[a].guide;
      var col := f.columns[KeptColumns(f)[b]];
      var cell := Reference(f, listed).rows[a].cells[b];
      && (IsControlGuide(g) && g !in listed ==> cell.None?)
      && (IsTcrSample(col) && Contains(g, "Tcr") ==> cell.None?)
      && (!IsTcrSample(col) && IsWntSample(col) && Contains(g, "Wnt") ==> cell.None?)
      && (cell.Some? ==> cell == f.rows[a].cells[KeptColumns(f)[b]])
  {
    SelectUnlisted(f.columns, [PlasmidEss]);
  }

  /** The filter fails exactly when the reference frame has no defined cell. */
  lemma FailsIffNoReferenceValue(f: Frame, listed: seq<string>)
    requires WellFormed(f)
    ensures FilterSpec(f, listed).Failure? <==>
      forall a, b :: 0 <= a < |f.rows| && 0 <= b < |KeptColumns(f)| ==>
        Reference(f, listed).rows[a].cells[b].None?
  {
    DefinedValuesEmpty(Reference(f, listed).rows);
  }

  /** When the filter succeeds, its threshold lies between two defined reference cells:
      one at or below it and one at or above it. */
  lemma ThresholdFromReference(f: Frame, listed: seq<string>)
    requires WellFormed(f) && FilterSpec(f, listed).Success?
    ensures exists a, b ::
      && 0 <= a < |f.rows| && 0 <= b < |KeptColumns(f)|
      && Reference(f, listed).rows[a].cells[b] == Some(LowNeighbour(NoiseValues(f, listed)))
    ensures exists a, b ::
      && 0 <= a < |f.rows| && 0 <= b < |KeptColumns(f)|
      && Reference(f, listed).rows[a].cells[b] == Some(HighNeighbour(NoiseValues(f, listed)))
    ensures LowNeighbour(NoiseValues(f, listed)) <= Threshold(f, listed) <= HighNeighbour(NoiseValues(f, listed))
  {
    var noise := NoiseValues(f, listed);
    Percentile95Bounds(noise);
    DefinedValuesIff(Reference(f, listed).rows, LowNeighbour(noise));
    DefinedValuesIff(Reference(f, listed).rows, HighNeighbour(noise));
  }
}
