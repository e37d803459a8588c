/** `screen_counts`: the CROP-seq cell assignments of every sample tallied into a guide x
    experiment matrix, `pivot_table(groupby(["experiment", "assignment"]).apply(len), ...,
    fill_value=0)`. */
module Tally {
  import opened Wrappers
  import opened Frames
  import opened Normalize

  /** One cell of `assignment_all`: its experiment and the guide it was assigned, missing
      when it was not assigned one. */
  datatype Record = Record(experiment: string, assignment: Option<string>)

  /** No element occurs twice. */
  predicate NoDuplicates(s: seq<string>)
  {
    forall i, j :: 0 <= i < j < |s| ==> s[i] != s[j]
  }

  /** The distinct elements of `xs`, in order of first occurrence. */
  function Distinct(xs: seq<string>): seq<string>
  {
    if xs == [] then []
    else
      var d := Distinct(xs[..|xs| - 1]);
      if xs[|xs| - 1] in d then d else d + [xs[|xs| - 1]]
  }

  lemma {:induction false} DistinctProperties(xs: seq<string>)
    ensures NoDuplicates(Distinct(xs))
    ensures forall x :: x in Distinct(xs) <==> x in xs
  {
    if xs != [] {
      var n := |xs| - 1;
      DistinctProperties(xs[..n]);
      assert xs == xs[..n] + [xs[n]];
    }
  }

  /** The guide of a record with an assignment (`groupby` leaves the others out). */
  function AssignedGuides(records: seq<Record>): (gs: seq<string>)
    ensures forall g :: g in gs <==> exists k :: 0 <= k < |records| && records[k].assignment == Some(g)
  {
    if records == [] then []
    else
      var n := |records| - 1;
      var last := records[n];
      assert forall k :: 0 <= k < n ==> records[..n][k] == records[k];
      AssignedGuides(records[..n]) + (if last.assignment.Some? then [last.assignment.value] else [])
  }

  /** The experiment of each record with an assignment. */
  function AssignedExperiments(records: seq<Record>): (es: seq<string>)
    ensures forall e :: e in es <==>
      exists k :: 0 <= k < |records| && records[k].experiment == e && records[k].assignment.Some?
  {
    if records == [] then []
    else
      var n := |records| - 1;
      var last := records[n];
      assert forall k :: 0 <= k < n ==> records[..n][k] == records[k];
      AssignedExperiments(records[..n]) + (if last.assignment.Some? then [last.experiment] else [])
  }

  /** A record is a cell of experiment `e` assigned guide `g`. */
  function Hit(r: Record, g: string, e: string): nat
  {
    if r.experiment == e && r.assignment == Some(g) then 1 else 0
  }

  /** `len` of one `(experiment, assignment)` group. */
  function Count(records: seq<Record>, g: string, e: string): (c: nat)
    ensures c <= Assigned(records, e)
  {
    if records == [] then 0
    else Count(records[..|records| - 1], g, e) + Hit(records[|records| - 1], g, e)
  }

  /** The cells of experiment `e` with some assignment. */
  function Assigned(records: seq<Record>, e: string): nat
  {
    if records == [] then 0
    else
      var last := records[|records| - 1];
      Assigned(records[..|records| - 1], e) + (if last.experiment == e && last.assignment.Some? then 1 else 0)
  }

  /** The tally as a frame: a row per assigned guide, a column per experiment, and the
      count of each pair, zero where the pair never occurs. */
  function ScreenCounts(records: seq<Record>): (f: Frame)
    ensures WellFormed(f)
  {
    var gs := Distinct(AssignedGuides(records));
    var es := Distinct(AssignedExperiments(records));
    Frame(es, seq(|gs|, a requires 0 <= a < |gs| =>
      Row(gs[a], seq(|es|, b requires 0 <= b < |es| => Some(Count(records, gs[a], es[b]) as real)))))
  }

  // ---------------------------------------------------------------------------
  // Shape
  // ---------------------------------------------------------------------------

  /** A cell count is zero exactly when no record has that experiment and guide. */
  lemma {:induction false} CountZeroIff(records: seq<Record>, g: string, e: string)
    ensures Count(records, g, e) == 0 <==>
      forall k :: 0 <= k < |records| ==> !(records[k].experiment == e && records[k].assignment == Some(g))
  {
    if records != [] {
      var n := |records| - 1;
      CountZeroIff(records[..n], g, e);
      assert forall k :: 0 <= k < n ==> records[..n][k] == records[k];
    }
  }

  /** The rows are the assigned guides and the columns the experiments with an assigned
      cell, each once; every cell is defined, holding its count. */
  lemma ScreenCountsShape(records: seq<Record>)
    ensures var f := ScreenCounts(records);
      && NoDuplicates(Guides(f)) && NoDuplicates(f.columns)
      && (forall g :: g in Guides(f) <==> exists k :: 0 <= k < |records| && records[k].assignment == Some(g))
      && (forall e :: e in f.columns <==>
            exists k :: 0 <= k < |records| && records[k].experiment == e && records[k].assignment.Some?)
      && forall a, b :: 0 <= a < |f.rows| && 0 <= b < |f.columns| ==>
            f.rows[a].cells[b] == Some(Count(records, f.rows[a].guide, f.columns[b]) as real)
  {
    var f := ScreenCounts(records);
    DistinctProperties(AssignedGuides(records));
    DistinctProperties(AssignedExperiments(records));
    assert Guides(f) == Distinct(AssignedGuides(records));
  }

  // ---------------------------------------------------------------------------
  // Column totals
  // ---------------------------------------------------------------------------

  /** How many of the guides `gs` a record hits in experiment `e`. */
  function Hits(r: Record, gs: seq<string>, e: string): nat
  {
    if gs == [] then 0 else Hits(r, gs[..|gs| - 1], e) + Hit(r, gs[|gs| - 1], e)
  }

  /** The counts of the guides `gs` in experiment `e`, added up. */
  function SumCounts(records: seq<Record>, gs: seq<string>, e: string): nat
  {
    if gs == [] then 0 else SumCounts(records, gs[..|gs| - 1], e) + Count(records, gs[|gs| - 1], e)
  }

  lemma {:induction false} SumCountsStep(records: seq<Record>, gs: seq<string>, e: string)
    requires records != []
    ensures SumCounts(records, gs, e) ==
      SumCounts(records[..|records| - 1], gs, e) + Hits(records[|records| - 1], gs, e)
  {
    if gs != [] {
      SumCountsStep(records, gs[..|gs| - 1], e);
    }
  }

  /** Among distinct guides a record hits at most one: its own, when it is listed. */
  lemma {:induction false} HitsDistinct(r: Record, gs: seq<string>, e: string)
    requires NoDuplicates(gs)
    ensures Hits(r, gs, e) == if r.experiment == e && r.assignment.Some? && r.assignment.value in gs then 1 else 0
  {
    if gs != [] {
      var n := |gs| - 1;
      assert NoDuplicates(gs[..n]);
      HitsDistinct(r, gs[..n], e);
      assert gs == gs[..n] + [gs[n]];
      assert gs[n] !in gs[..n];
    }
  }

  /** Adding up the counts of distinct guides that cover every assignment of experiment `e`
      gives the number of assigned cells of `e`. */
  lemma {:induction false} SumCountsTotal(records: seq<Record>, gs: seq<string>, e: string)
    requires NoDuplicates(gs)
    requires forall k :: 0 <= k < |records| && records[k].experiment == e && records[k].assignment.Some? ==>
      records[k].assignment.value in gs
    ensures SumCounts(records, gs, e) == Assigned(records, e)
  {
    if records == [] {
      EmptySum(gs, e);
    } else {
      var n := |records| - 1;
      assert forall k :: 0 <= k < n ==> records[..n][k] == records[k];
      SumCountsTotal(records[..n], gs, e);
      SumCountsStep(records, gs, e);
      HitsDistinct(records[n], gs, e);
    }
  }

  lemma {:induction false} EmptySum(gs: seq<string>, e: string)
    ensures SumCounts([], gs, e) == 0
  {
    if gs != [] {
      EmptySum(gs[..|gs| - 1], e);
    }
  }

  /** The counts of `gs` in experiment `e` as a column of cells. */
  function CountColumn(records: seq<Record>, gs: seq<string>, e: string): (col: seq<Option<real>>)
    ensures |col| == |gs|
  {
    seq(|gs|, a requires 0 <= a < |gs| => Some(Count(records, gs[a], e) as real))
  }

  lemma {:induction false} TotalOfCounts(records: seq<Record>, gs: seq<string>, e: string)
    ensures Total(CountColumn(records, gs, e)) == SumCounts(records, gs, e) as real
  {
    if gs != [] {
      var n := |gs| - 1;
      assert CountColumn(records, gs, e)[..n] == CountColumn(records, gs[..n], e);
      TotalOfCounts(records, gs[..n], e);
    }
  }

  /** Every column of the raw tally adds up to the number of assigned cells of its
      experiment, which is at least one, so the raw tally has no column summing to zero. */
  lemma ScreenColumnTotal(records: seq<Record>, b: nat)
    requires b < |ScreenCounts(records).columns|
    ensures var f := ScreenCounts(records);
      && Total(Column(f, b)) == Assigned(records, f.columns[b]) as real
      && Assigned(records, f.columns[b]) >= 1
  {
    var f := ScreenCounts(records);
    var gs := Distinct(AssignedGuides(records));
    var es := Distinct(AssignedExperiments(records));
    var e := es[b];
    assert Column(f, b) == CountColumn(records, gs, e);
    TotalOfCounts(records, gs, e);
    DistinctProperties(AssignedGuides(records));
    forall k | 0 <= k < |records| && records[k].experiment == e && records[k].assignment.Some?
      ensures records[k].assignment.value in gs
    {
      assert records[k].assignment.value in AssignedGuides(records);
    }
    SumCountsTotal(records, gs, e);
    DistinctProperties(AssignedExperiments(records));
    assert e in AssignedExperiments(records);
    var k :| 0 <= k < |records| && records[k].experiment == e && records[k].assignment.Some?;
    AssignedPositive(records, e, k);
  }

  lemma {:induction false} AssignedPositive(records: seq<Record>, e: string, k: nat)
    requires k < |records| && records[k].experiment == e && records[k].assignment.Some?
    ensures Assigned(records, e) >= 1
  {
    var n := |records| - 1;
    if k < n {
      assert records[..n][k] == records[k];
      AssignedPositive(records[..n], e, k);
    }
  }
}
