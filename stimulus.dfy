/** `gRNA_rank_stimulus`: the stimulated-minus-unstimulated fold-change table. The screen
    columns are taken in reverse order and paired by position, (0, 1), (2, 3), ...; each pair
    gives one column, the difference of its second and first member, labelled with the
    second; one plot panel is drawn per pair, and the figure has three. Each pair's series is
    coloured guide by guide before its panel is drawn. The input table lists its screen
    columns in the order of `s2`'s columns, and the model reverses them itself, as line 320
    does; the script picks each screen's column by name, so the table it builds in its first
    loop, whose columns already run in reverse, gives the same pairs. */
module Stimulus {
  import opened Wrappers
  import opened Text
  import opened Seqs
  import opened Frames
  import opened Categories

  /** How the pairing loop fails in the script. */
  datatype PairError =
    | NoPairs         // no column: the result table `xxx` is never bound
    | NoPanelLeft     // a fourth pair: `axis.next()` on a three-panel figure
    | MissingPartner  // an odd column count: `screens[i + 1]` is out of range
    | Uncoloured(pair: nat, cause: ClassifyError)
                      // pair `pair`'s series cannot be coloured: one of its guides has none of
                      // the four tags, or it has no guide at all

  /** The panels of the difference figure (`plt.subplots(1, 3)`). */
  const Panels: nat := 3

  /** `s[::-1]`. */
  function Reversed<T>(s: seq<T>): (r: seq<T>)
    ensures |r| == |s|
    ensures forall k :: 0 <= k < |s| ==> r[k] == s[|s| - 1 - k]
  {
    seq(|s|, k requires 0 <= k < |s| => s[|s| - 1 - k])
  }

  /** `xx[later] - xx[earlier]` for one guide: NaN unless both fold-changes are defined. */
  function Difference(later: Option<real>, earlier: Option<real>): (d: Option<real>)
    ensures d.Some? <==> later.Some? && earlier.Some?
    ensures d.Some? ==> d.value == later.value - earlier.value
  {
    if later.Some? && earlier.Some? then Some(later.value - earlier.value) else None
  }

  /** The difference column of the pair starting at reversed position `i`:
      `xx[screens[i + 1]] - xx[screens[i]]`, guide by guide. */
  function PairColumn(fc: Frame, i: nat): (col: seq<Option<real>>)
    requires WellFormed(fc) && i + 1 < |fc.columns|
    ensures |col| == |fc.rows|
  {
    var n := |fc.columns|;
    seq(|fc.rows|, a requires 0 <= a < |fc.rows| =>
      Difference(fc.rows[a].cells[n - 2 - i], fc.rows[a].cells[n - 1 - i]))
  }

  /** The labels of the first `k` pairs: the second column of each. */
  function PairLabels(fc: Frame, k: nat): (labels: seq<string>)
    requires 2 * k <= |fc.columns|
  {
    seq(k, m requires 0 <= m < k => Reversed(fc.columns)[2 * m + 1])
  }

  /** The difference columns of the first `k` pairs. */
  function PairColumns(fc: Frame, k: nat): (cols: seq<seq<Option<real>>>)
    requires WellFormed(fc) && 2 * k <= |fc.columns|
    ensures |cols| == k && forall m :: 0 <= m < k ==> |cols[m]| == |fc.rows|
  {
    seq(k, m requires 0 <= m < k => PairColumn(fc, 2 * m))
  }

  /** Some difference of guide `a` is defined, so `dropna` keeps it in at least one series. */
  predicate HasDifference(cols: seq<seq<Option<real>>>, a: nat)
    requires forall c :: 0 <= c < |cols| ==> a < |cols[c]|
  {
    exists c :: 0 <= c < |cols| && cols[c][a].Some?
  }

  /** Which guides the outer join of the `dropna`ed series keeps. */
  function JoinMask(rows: nat, cols: seq<seq<Option<real>>>): (mask: seq<bool>)
    requires forall c :: 0 <= c < |cols| ==> |cols[c]| == rows
    ensures |mask| == rows
    ensures forall a :: 0 <= a < rows ==> (mask[a] <==> HasDifference(cols, a))
  {
    seq(rows, a requires 0 <= a < rows => HasDifference(cols, a))
  }

  /** `xxx`: the outer join of the series, one column per pair; a guide appears when one of
      its differences is defined, and a difference it lacks is missing. */
  function Joined(guides: seq<string>, labels: seq<string>, cols: seq<seq<Option<real>>>): (r: Frame)
    requires |labels| == |cols| && forall c :: 0 <= c < |cols| ==> |cols[c]| == |guides|
    ensures WellFormed(r)
  {
    var keep := TrueIndices(JoinMask(|guides|, cols));
    Frame(labels, seq(|keep|, k requires 0 <= k < |keep| =>
      Row(guides[keep[k]], seq(|cols|, c requires 0 <= c < |cols| => cols[c][keep[k]]))))
  }

  /** The guides a `dropna`ed series keeps: those whose cell is defined, in order. */
  function Kept(guides: seq<string>, col: seq<Option<real>>): seq<string>
    requires |col| == |guides|
  {
    Select(guides, TrueIndices(seq(|col|, a requires 0 <= a < |col| => col[a].Some?)))
  }

  /** The index of pair `m`'s series, the guides its panel colours. */
  function PairGuides(fc: Frame, m: nat): seq<string>
    requires WellFormed(fc) && 2 * m + 1 < |fc.columns|
  {
    Kept(Guides(fc), PairColumn(fc, 2 * m))
  }

  /** Every guide of pair `m`'s series carries a tag, so its colour list can be built. */
  predicate Coloured(fc: Frame, m: nat)
    requires WellFormed(fc) && 2 * m + 1 < |fc.columns|
  {
    ClassifyAll(PairGuides(fc, m)).Success?
  }

  /** Which of the first `k` pairs can be coloured. */
  function ColouredPairs(fc: Frame, k: nat): (ok: seq<bool>)
    requires WellFormed(fc) && 2 * k <= |fc.columns|
    ensures |ok| == k
  {
    seq(k, l requires 0 <= l < k => Coloured(fc, l))
  }

  /** The pairs the loop completes before it runs out of panels or of columns. */
  function CompletedPairs(n: nat): (k: nat)
    ensures k <= Panels && 2 * k <= n
  {
    if n / 2 < Panels then n / 2 else Panels
  }

  lemma Half(n: nat, k: nat)
    requires 2 * k <= n
    ensures k <= n / 2
    ensures n <= 2 * k + 1 ==> n / 2 == k
  {
  }

  /** What the pairing loop of `gRNA_rank_stimulus` produces from the fold-change table:
      the first iteration that fails decides the error. */
  function StimulusSpec(fc: Frame): (r: Result<Frame, PairError>)
    requires WellFormed(fc)
    ensures r.Success? ==> |fc.columns| in {2, 4, 6} && WellFormed(r.value) && |r.value.columns| == |fc.columns| / 2
  {
    var n := |fc.columns|;
    if n == 0 then Failure(NoPairs)
    else
      match FirstFalse(ColouredPairs(fc, CompletedPairs(n)), 0)
      case Some(m) => Failure(Uncoloured(m, ClassifyAll(PairGuides(fc, m)).error))
      case None =>
        if n > 2 * Panels then Failure(NoPanelLeft)
        else if n % 2 == 1 then Failure(MissingPartner)
        else Success(Joined(Guides(fc), PairLabels(fc, n / 2), PairColumns(fc, n / 2)))
  }

  /** The pairing loop: for each even reversed position `i` it takes the next panel, then
      the difference of columns `i + 1` and `i`, named after column `i + 1`, and colours the
      guides of that series. */
  method StimulusDifferences(fc: Frame) returns (r: Result<Frame, PairError>)
    requires WellFormed(fc)
    ensures r == StimulusSpec(fc)
  {
    var screens := Reversed(fc.columns);
    var n := |screens|;
    var labels: seq<string> := [];
    var cols: seq<seq<Option<real>>> := [];
    var panelsLeft := Panels;
    var i, k := 0, 0;
    while i < n
      invariant i == 2 * k && i <= n && k + panelsLeft == Panels
      invariant labels == PairLabels(fc, k)
      invariant cols == PairColumns(fc, k)
      invariant forall l :: 0 <= l < k ==> Coloured(fc, l)
    {
      if panelsLeft == 0 {
        LoopStops(fc, k);
        return Failure(NoPanelLeft);
      }
      panelsLeft := panelsLeft - 1;
      if i + 1 >= n {
        LoopStops(fc, k);
        return Failure(MissingPartner);
      }
      var series := PairColumn(fc, i);
      labels := labels + [screens[i + 1]];
      cols := cols + [series];
      assert Kept(Guides(fc), series) == PairGuides(fc, k);
      var colours := ClassifyAll(Kept(Guides(fc), series));
      if colours.Failure? {
        LoopUncoloured(fc, k);
        return Failure(Uncoloured(k, colours.error));
      }
      i, k := i + 2, k + 1;
    }
    if i == 0 {
      return Failure(NoPairs);
    }
    LoopStops(fc, k);
    r := Success(Joined(Guides(fc), labels, cols));
  }

  /** The loop stops after `k` coloured pairs, out of panels or of columns: the outcome is
      the specification's structural one. */
  lemma LoopStops(fc: Frame, k: nat)
    requires WellFormed(fc) && 0 < |fc.columns| && 2 * k <= |fc.columns| && k <= Panels
    requires k == Panels || |fc.columns| <= 2 * k + 1
    requires forall l :: 0 <= l < k ==> Coloured(fc, l)
    ensures var n := |fc.columns|;
      StimulusSpec(fc) ==
        if n > 2 * Panels then Failure(NoPanelLeft)
        else if n % 2 == 1 then Failure(MissingPartner)
        else Success(Joined(Guides(fc), PairLabels(fc, k), PairColumns(fc, k)))
  {
    var n := |fc.columns|;
    Half(n, k);
    assert CompletedPairs(n) == k;
    FirstFalseAt(ColouredPairs(fc, k), 0, k);
  }

  /** The loop stops at pair `k`, the first whose series cannot be coloured. */
  lemma LoopUncoloured(fc: Frame, k: nat)
    requires WellFormed(fc) && 2 * k + 2 <= |fc.columns| && k < Panels
    requires forall l :: 0 <= l < k ==> Coloured(fc, l)
    requires !Coloured(fc, k)
    ensures StimulusSpec(fc) == Failure(Uncoloured(k, ClassifyAll(PairGuides(fc, k)).error))
  {
    var n := |fc.columns|;
    Half(n, k + 1);
    FirstFalseAt(ColouredPairs(fc, CompletedPairs(n)), 0, k);
  }

  // ---------------------------------------------------------------------------
  // Properties of the pairing
  // ---------------------------------------------------------------------------

  /** Some guide has both of pair `m`'s fold-changes defined, so the pair's series is not
      empty. */
  predicate PairKeepsSome(fc: Frame, m: nat)
    requires WellFormed(fc) && 2 * m + 1 < |fc.columns|
  {
    exists a :: 0 <= a < |fc.rows| && PairDefined(fc, a, m)
  }

  /** Pair `m`'s series can be coloured exactly when some guide has both of the pair's
      fold-changes defined and every such guide carries one of the four tags. */
  lemma PairColouredIff(fc: Frame, m: nat)
    requires WellFormed(fc) && 2 * m + 1 < |fc.columns|
    ensures Coloured(fc, m) <==>
      && PairKeepsSome(fc, m)
      && forall a :: 0 <= a < |fc.rows| && PairDefined(fc, a, m) ==> Classify(fc.rows[a].guide).Some?
  {
    var n := |fc.columns|;
    var col := PairColumn(fc, 2 * m);
    var mask := seq(|col|, a requires 0 <= a < |col| => col[a].Some?);
    var ix := TrueIndices(mask);
    var gs := PairGuides(fc, m);
    TrueIndicesCharacterised(mask);
    ClassifyAllFails(gs);
    forall a | 0 <= a < |fc.rows| ensures mask[a] <==> PairDefined(fc, a, m) {
      assert col[a] == Difference(fc.rows[a].cells[n - 2 - 2 * m], fc.rows[a].cells[n - 1 - 2 * m]);
    }
    if gs != [] {
      assert gs[0] == fc.rows[ix[0]].guide && mask[ix[0]];
    }
    if ClassifyAll(gs).Failure? && gs != [] {
      var k :| 0 <= k < |gs| && Classify(gs[k]).None?;
      assert gs[k] == fc.rows[ix[k]].guide && mask[ix[k]];
    }
    if a :| 0 <= a < |fc.rows| && PairDefined(fc, a, m) {
      assert a in ix;
    }
    if a :| 0 <= a < |fc.rows| && PairDefined(fc, a, m) && Classify(fc.rows[a].guide).None? {
      assert a in ix;
      var k :| 0 <= k < |ix| && ix[k] == a;
      assert gs[k] == fc.rows[a].guide;
    }
  }

  /** The pairing succeeds exactly for two, four or six columns when every pair keeps some
      guide and every guide the differences keep can be coloured. */
  lemma StimulusSucceedsIff(fc: Frame)
    requires WellFormed(fc)
    ensures StimulusSpec(fc).Success? <==>
      && |fc.columns| in {2, 4, 6}
      && (forall m :: 0 <= m < |fc.columns| / 2 ==> PairKeepsSome(fc, m))
      && forall a, m :: 0 <= a < |fc.rows| && 0 <= m < |fc.columns| / 2 && PairDefined(fc, a, m) ==>
           Classify(fc.rows[a].guide).Some?
  {
    var n := |fc.columns|;
    if n in {2, 4, 6} {
      var ok := ColouredPairs(fc, CompletedPairs(n));
      assert CompletedPairs(n) == n / 2;
      var r := FirstFalse(ok, 0);
      if r.Some? {
        var m := r.value;
        PairColouredIff(fc, m);
        assert m < n / 2 && !Coloured(fc, m);
        if PairKeepsSome(fc, m) {
          var a :| 0 <= a < |fc.rows| && PairDefined(fc, a, m) && Classify(fc.rows[a].guide).None?;
        }
      } else {
        forall m | 0 <= m < n / 2
          ensures PairKeepsSome(fc, m)
        {
          assert ok[m];
          PairColouredIff(fc, m);
        }
        forall a, m | 0 <= a < |fc.rows| && 0 <= m < n / 2 && PairDefined(fc, a, m)
          ensures Classify(fc.rows[a].guide).Some?
        {
          assert ok[m];
          PairColouredIff(fc, m);
        }
      }
    }
  }

  /** A colour failure names a pair the loop reaches, every earlier pair being coloured, and
      its cause: the pair's series is empty, or the named guide of it has none of the four
      tags. */
  lemma StimulusUncoloured(fc: Frame)
    requires WellFormed(fc) && StimulusSpec(fc).Failure? && StimulusSpec(fc).error.Uncoloured?
    ensures var e := StimulusSpec(fc).error;
      && e.pair < Panels && 2 * e.pair + 1 < |fc.columns|
      && (e.cause == EmptySeries <==> PairGuides(fc, e.pair) == [])
      && (e.cause.Unclassified? ==>
            e.cause.position < |PairGuides(fc, e.pair)| && Classify(PairGuides(fc, e.pair)[e.cause.position]).None?)
      && forall l :: 0 <= l < e.pair ==> Coloured(fc, l)
  {
    var ok := ColouredPairs(fc, CompletedPairs(|fc.columns|));
    var m := FirstFalse(ok, 0).value;
    forall l | 0 <= l < m ensures Coloured(fc, l) {
      assert ok[l];
    }
  }

  /** On success there is one column per pair, labelled with the pair's second reversed
      column; a guide is kept exactly when one of its differences is defined, in input order;
      each cell is the difference of the pair's second and first fold-change, defined only
      where both are. */
  lemma StimulusTable(fc: Frame)
    requires WellFormed(fc) && StimulusSpec(fc).Success?
    ensures var out := StimulusSpec(fc).value;
      var screens := Reversed(fc.columns);
      && WellFormed(out)
      && |out.columns| == |fc.columns| / 2
      && (forall m :: 0 <= m < |out.columns| ==> out.columns[m] == screens[2 * m + 1])
      && Guides(out) == Select(Guides(fc), TrueIndices(JoinMask(|fc.rows|, PairColumns(fc, |fc.columns| / 2))))
  {
  }

  /** Guide `a` has both fold-changes of pair `m`. */
  predicate PairDefined(fc: Frame, a: nat, m: nat)
    requires WellFormed(fc) && a < |fc.rows| && 2 * m + 1 < |fc.columns|
  {
    var n := |fc.columns|;
    fc.rows[a].cells[n - 2 - 2 * m].Some? && fc.rows[a].cells[n - 1 - 2 * m].Some?
  }

  /** A guide of the input survives exactly when, for some pair, both of its fold-changes are
      defined. */
  lemma StimulusKeepsGuide(fc: Frame, a: nat)
    requires WellFormed(fc) && StimulusSpec(fc).Success? && a < |fc.rows|
    ensures a in TrueIndices(JoinMask(|fc.rows|, PairColumns(fc, |fc.columns| / 2))) <==>
      exists m :: 0 <= m < |fc.columns| / 2 && PairDefined(fc, a, m)
  {
    var n := |fc.columns|;
    var cols := PairColumns(fc, n / 2);
    TrueIndicesCharacterised(JoinMask(|fc.rows|, cols));
    forall m | 0 <= m < n / 2 ensures cols[m][a].Some? <==> PairDefined(fc, a, m) {
      assert cols[m][a] == Difference(fc.rows[a].cells[n - 2 - 2 * m], fc.rows[a].cells[n - 1 - 2 * m]);
    }
  }

  /** Cell `(k, m)` of the table holds the difference of pair `m` for the `k`-th kept guide. */
  lemma StimulusCell(fc: Frame, k: nat, m: nat)
    requires WellFormed(fc) && StimulusSpec(fc).Success?
    requires k < |StimulusSpec(fc).value.rows| && m < |fc.columns| / 2
    ensures var keep := TrueIndices(JoinMask(|fc.rows|, PairColumns(fc, |fc.columns| / 2)));
      var n := |fc.columns|;
      && k < |keep|
      && StimulusSpec(fc).value.rows[k].guide == fc.rows[keep[k]].guide
      && StimulusSpec(fc).value.rows[k].cells[m]
           == Difference(fc.rows[keep[k]].cells[n - 2 - 2 * m], fc.rows[keep[k]].cells[n - 1 - 2 * m])
  {
    var n := |fc.columns|;
    var cols := PairColumns(fc, n / 2);
    StimulusValue(fc);
    var keep := TrueIndices(JoinMask(|fc.rows|, cols));
    assert StimulusSpec(fc).value.rows[k].cells[m] == cols[m][keep[k]];
    assert cols[m] == PairColumn(fc, 2 * m);
  }

  /** On success the table is the join of the pair columns. */
  lemma StimulusValue(fc: Frame)
    requires WellFormed(fc) && StimulusSpec(fc).Success?
    ensures StimulusSpec(fc).value ==
      Joined(Guides(fc), PairLabels(fc, |fc.columns| / 2), PairColumns(fc, |fc.columns| / 2))
  {
  }

  // ---------------------------------------------------------------------------
  // Column labels of the saved table
  // ---------------------------------------------------------------------------

  /** The suffix the saved table strips from its column labels. */
  const StimulatedSuffix: string := "_stimulated"

  /** `str.extract("(.*)_stimulated")` on one label: the text before the last occurrence
      of `_stimulated` (the greedy group), or NaN when the label has none. */
  function StimulusLabel(name: string): (r: Option<string>)
    ensures r.Some? ==> |r.value| + |StimulatedSuffix| <= |name| && name[..|r.value|] == r.value
    ensures r.Some? ==> OccursAt(name, StimulatedSuffix, |r.value|)
    ensures r.Some? ==> forall k :: |r.value| < k <= |name| ==> !OccursAt(name, StimulatedSuffix, k)
  {
    match LastOccurrence(name, StimulatedSuffix, |name|)
    case None => None
    case Some(p) => Some(name[..p])
  }

  /** The labels of the saved table (`xxx.columns = xxx.columns.str.extract(...)`). */
  function SavedLabels(labels: seq<string>): (r: seq<Option<string>>)
    ensures |r| == |labels| && forall m :: 0 <= m < |labels| ==> r[m] == StimulusLabel(labels[m])
  {
    seq(|labels|, m requires 0 <= m < |labels| => StimulusLabel(labels[m]))
  }

  /** Stripping the suffix recovers the sample: a label `p + "_stimulated"` becomes `p`,
      whatever `p` contains. */
  lemma StimulusLabelRoundTrip(p: string)
    ensures StimulusLabel(p + StimulatedSuffix) == Some(p)
  {
    var s := p + StimulatedSuffix;
    assert s[|p|..|p| + |StimulatedSuffix|] == StimulatedSuffix;
    assert OccursAt(s, StimulatedSuffix, |p|);
    var r := LastOccurrence(s, StimulatedSuffix, |s|);
    assert r.Some? && r.value >= |p|;
    assert r.value == |p|;
    assert s[..|p|] == p;
  }

  /** A label gets no sample name exactly when it does not contain `_stimulated`. */
  lemma StimulusLabelMissing(name: string)
    ensures StimulusLabel(name).None? <==> !Contains(name, StimulatedSuffix)
  {
    ContainsIff(name, StimulatedSuffix);
  }
}
