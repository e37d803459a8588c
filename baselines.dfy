/** The comparison column of each scatter panel (`gRNA_scatter`): for every screen, in
    reverse column order, the plot picks the sample it compares against and drops the guides
    of the opposite sub-library, by substring tests on the plot's prefix and the screen name. */
module Baselines {
  import opened Wrappers
  import opened Text
  import opened Seqs

  /** The comparison series `b`: a named count column, or, for the plasmid plots, `x[0]`,
      the column whose label is `0` (a frame indexed with `[]` selects by label). */
  datatype Baseline = Named(column: string) | LabelZero

  /** What one screen's block of tests chooses: the tags whose guides are dropped, in the
      order the tests drop them, and the baseline, if any test assigned one. */
  datatype Choice = Choice(excluded: seq<string>, baseline: Option<Baseline>)

  /** One `if ... in screen:` block: when it applies, drop the guides tagged `tag` and take
      `column` as the baseline, overriding an earlier block. */
  function When(c: Choice, applies: bool, tag: string, column: string): Choice
  {
    if applies then Choice(c.excluded + [tag], Some(Named(column))) else c
  }

  /** The tests of one loop iteration, in source order. */
  function Choose(prefix: string, screen: string): (c: Choice)
    ensures c.baseline.None? ==> c.excluded == []
    ensures forall t :: t in c.excluded ==> t == "Wnt" || t == "Tcr"
  {
    var nothing := Choice([], None);
    if Contains(prefix, "original") then
      var tcr := When(nothing, Contains(screen, "TCR"), "Wnt", "plasmid_pool_TCR");
      When(tcr, Contains(screen, "WNT"), "Tcr", "plasmid_pool_WNT")
    else if !Contains(prefix, "plasmid") then
      var tcr := When(nothing, Contains(screen, "TCR"), "Wnt", "gDNA_Jurkat");
      var hek4 := When(tcr, Contains(screen, "_4_WNT"), "Tcr", "gDNA_HEKclone4");
      When(hek4, Contains(screen, "_6_WNT"), "Tcr", "gDNA_HEKclone6")
    else
      Choice([], Some(LabelZero))
  }

  /** The count columns of the TCR sub-library; the other named baselines are WNT ones. */
  predicate TcrBaseline(b: Baseline)
  {
    b == Named("plasmid_pool_TCR") || b == Named("gDNA_Jurkat")
  }

  predicate WntBaseline(b: Baseline)
  {
    b == Named("plasmid_pool_WNT") || b == Named("gDNA_HEKclone4") || b == Named("gDNA_HEKclone6")
  }

  /** Original plots: a `WNT` screen compares with the WNT plasmid pool, overriding the TCR
      pool a `TCR` screen would get; a `TCR` screen drops the Wnt guides and a `WNT` screen
      the Tcr guides. */
  lemma ChooseOriginal(prefix: string, screen: string)
    requires Contains(prefix, "original")
    ensures Choose(prefix, screen).baseline ==
      if Contains(screen, "WNT") then Some(Named("plasmid_pool_WNT"))
      else if Contains(screen, "TCR") then Some(Named("plasmid_pool_TCR"))
      else None
    ensures "Wnt" in Choose(prefix, screen).excluded <==> Contains(screen, "TCR")
    ensures "Tcr" in Choose(prefix, screen).excluded <==> Contains(screen, "WNT")
  {
  }

  /** Mid-screen and screen plots: `_6_WNT` overrides `_4_WNT`, which overrides `TCR`. */
  lemma ChooseScreen(prefix: string, screen: string)
    requires !Contains(prefix, "original") && !Contains(prefix, "plasmid")
    ensures Choose(prefix, screen).baseline ==
      if Contains(screen, "_6_WNT") then Some(Named("gDNA_HEKclone6"))
      else if Contains(screen, "_4_WNT") then Some(Named("gDNA_HEKclone4"))
      else if Contains(screen, "TCR") then Some(Named("gDNA_Jurkat"))
      else None
    ensures "Wnt" in Choose(prefix, screen).excluded <==> Contains(screen, "TCR")
    ensures "Tcr" in Choose(prefix, screen).excluded <==>
      Contains(screen, "_4_WNT") || Contains(screen, "_6_WNT")
  {
  }

  /** Plasmid plots compare with the column labelled `0` and drop nothing. */
  lemma ChoosePlasmid(prefix: string, screen: string)
    requires !Contains(prefix, "original") && Contains(prefix, "plasmid")
    ensures Choose(prefix, screen) == Choice([], Some(LabelZero))
  {
  }

  /** The guides of the opposite sub-library are always dropped: a TCR baseline comes with
      the Wnt guides removed, a WNT baseline with the Tcr guides removed. */
  lemma OppositeLibraryDropped(prefix: string, screen: string)
    ensures var c := Choose(prefix, screen);
      c.baseline.Some? && TcrBaseline(c.baseline.value) ==> "Wnt" in c.excluded
    ensures var c := Choose(prefix, screen);
      c.baseline.Some? && WntBaseline(c.baseline.value) ==> "Tcr" in c.excluded
  {
    if Contains(prefix, "original") {
      ChooseOriginal(prefix, screen);
    } else if !Contains(prefix, "plasmid") {
      ChooseScreen(prefix, screen);
    }
  }

  // ---------------------------------------------------------------------------
  // The guides a panel plots
  // ---------------------------------------------------------------------------

  /** `x.ix[x.index[~x.index.str.contains(tag)]]`: the guides without `tag`, in order. */
  function Without(guides: seq<string>, tag: string): (r: seq<string>)
  {
    Select(guides, TrueIndices(seq(|guides|, a requires 0 <= a < |guides| => !Contains(guides[a], tag))))
  }

  /** The guides left after dropping every excluded tag in turn. */
  function Remaining(guides: seq<string>, excluded: seq<string>): seq<string>
  {
    if excluded == [] then guides
    else Without(Remaining(guides, excluded[..|excluded| - 1]), excluded[|excluded| - 1])
  }

  lemma WithoutIff(guides: seq<string>, tag: string, g: string)
    ensures g in Without(guides, tag) <==> g in guides && !Contains(g, tag)
  {
    var mask := seq(|guides|, a requires 0 <= a < |guides| => !Contains(guides[a], tag));
    var ix := TrueIndices(mask);
    TrueIndicesCharacterised(mask);
    if g in guides && !Contains(g, tag) {
      var a :| 0 <= a < |guides| && guides[a] == g;
      assert mask[a] && a in ix;
      var k :| 0 <= k < |ix| && ix[k] == a;
      assert Without(guides, tag)[k] == g;
    }
    if g in Without(guides, tag) {
      var k :| 0 <= k < |ix| && Without(guides, tag)[k] == g;
      assert ix[k] in ix && mask[ix[k]];
    }
  }

  /** A guide is plotted exactly when it is one of the input guides and carries none of the
      excluded tags. */
  lemma {:induction false} RemainingIff(guides: seq<string>, excluded: seq<string>, g: string)
    ensures g in Remaining(guides, excluded) <==>
      g in guides && forall t :: t in excluded ==> !Contains(g, t)
  {
    if excluded != [] {
      var n := |excluded| - 1;
      RemainingIff(guides, excluded[..n], g);
      WithoutIff(Remaining(guides, excluded[..n]), excluded[n], g);
      assert excluded == excluded[..n] + [excluded[n]];
    }
  }

  // ---------------------------------------------------------------------------
  // The loop over screens
  // ---------------------------------------------------------------------------

  /** How the scatter loop fails. */
  datatype ScatterError =
    | Unbound(screen: nat)   // no test has assigned `b` yet when the panel reads it
    | NoPanel(screen: nat)   // `axis[i]` past the six panels of the 3 x 2 grid

  /** The panels of the scatter figure. */
  const ScatterPanels: nat := 6

  /** `b` after the first `k` screens: the baseline of the latest of them that chose one
      (the variable keeps its value from one iteration to the next). */
  function Carried(prefix: string, screens: seq<string>, k: nat): (b: Option<Baseline>)
    requires k <= |screens|
  {
    if k == 0 then None
    else
      match Choose(prefix, screens[k - 1]).baseline
      case Some(b) => Some(b)
      case None => Carried(prefix, screens, k - 1)
  }

  /** The baselines of the first `k` panels, or the failure of the first panel that fails. */
  function ScatterUpTo(prefix: string, screens: seq<string>, k: nat): (r: Result<seq<Baseline>, ScatterError>)
    requires k <= |screens|
    ensures r.Success? ==> |r.value| == k <= ScatterPanels
    ensures r.Failure? ==> r.error.screen < k
  {
    if k == 0 then Success([])
    else
      match ScatterUpTo(prefix, screens, k - 1)
      case Failure(e) => Failure(e)
      case Success(bs) =>
        if k - 1 >= ScatterPanels then Failure(NoPanel(k - 1))
        else
          match Carried(prefix, screens, k)
          case None => Failure(Unbound(k - 1))
          case Some(b) => Success(bs + [b])
  }

  /** The loop of `gRNA_scatter` over screens (already in reverse column order), keeping the
      baseline variable across iterations. */
  method ScatterBaselines(prefix: string, screens: seq<string>) returns (r: Result<seq<Baseline>, ScatterError>)
    ensures r == ScatterUpTo(prefix, screens, |screens|)
  {
    var b: Option<Baseline> := None;
    var bs: seq<Baseline> := [];
    var i := 0;
    while i < |screens|
      invariant i <= |screens|
      invariant b == Carried(prefix, screens, i)
      invariant ScatterUpTo(prefix, screens, i) == Success(bs)
    {
      var c := Choose(prefix, screens[i]);
      if c.baseline.Some? {
        b := c.baseline;
      }
      if i >= ScatterPanels {
        FailureSticks(prefix, screens, i + 1, |screens|);
        return Failure(NoPanel(i));
      }
      if b.None? {
        FailureSticks(prefix, screens, i + 1, |screens|);
        return Failure(Unbound(i));
      }
      bs := bs + [b.value];
      i := i + 1;
    }
    r := Success(bs);
  }

  /** Once a panel fails, the loop has failed for good: a later screen changes nothing. */
  lemma {:induction false} FailureSticks(prefix: string, screens: seq<string>, k: nat, k': nat)
    requires k <= k' <= |screens| && ScatterUpTo(prefix, screens, k).Failure?
    ensures ScatterUpTo(prefix, screens, k') == ScatterUpTo(prefix, screens, k)
    decreases k' - k
  {
    if k < k' {
      FailureSticks(prefix, screens, k, k' - 1);
    }
  }

  /** A carried baseline was chosen by one of the screens so far, the latest one to choose. */
  lemma {:induction false} CarriedIsLatest(prefix: string, screens: seq<string>, k: nat)
    requires k <= |screens|
    ensures Carried(prefix, screens, k).None? <==>
      forall j :: 0 <= j < k ==> Choose(prefix, screens[j]).baseline.None?
    ensures Carried(prefix, screens, k).Some? ==>
      exists j :: 0 <= j < k && Choose(prefix, screens[j]).baseline == Carried(prefix, screens, k) &&
        forall l :: j < l < k ==> Choose(prefix, screens[l]).baseline.None?
  {
    if k > 0 {
      CarriedIsLatest(prefix, screens, k - 1);
      if Choose(prefix, screens[k - 1]).baseline.None? && Carried(prefix, screens, k).Some? {
        var j :| 0 <= j < k - 1 && Choose(prefix, screens[j]).baseline == Carried(prefix, screens, k - 1) &&
          forall l :: j < l < k - 1 ==> Choose(prefix, screens[l]).baseline.None?;
        assert forall l :: j < l < k ==> Choose(prefix, screens[l]).baseline.None?;
      }
    }
  }

  /** The panels succeed for all of the first `k` screens exactly when there are at most six
      of them and the first one chooses a baseline; then panel `i` shows `Carried` after
      screen `i`. */
  lemma {:induction false} ScatterUpToIff(prefix: string, screens: seq<string>, k: nat)
    requires k <= |screens|
    ensures ScatterUpTo(prefix, screens, k).Success? <==>
      k <= ScatterPanels && (k == 0 || Choose(prefix, screens[0]).baseline.Some?)
    ensures ScatterUpTo(prefix, screens, k).Success? ==>
      var bs := ScatterUpTo(prefix, screens, k).value;
      |bs| == k && forall i :: 0 <= i < k ==> Carried(prefix, screens, i + 1) == Some(bs[i])
  {
    if k > 0 {
      ScatterUpToIff(prefix, screens, k - 1);
      if k == 1 {
        assert Carried(prefix, screens, 0).None?;
      } else {
        CarriedIsLatest(prefix, screens, k);
      }
    }
  }

  /** The scatter fails when the first screen chooses no baseline (`b` is read before it is
      bound) or when there are more than six screens (the seventh panel does not exist);
      the unbound baseline, on the first panel, is met first. */
  lemma ScatterFails(prefix: string, screens: seq<string>)
    ensures var r := ScatterUpTo(prefix, screens, |screens|);
      && (r.Failure? <==> |screens| > ScatterPanels || (|screens| > 0 && Choose(prefix, screens[0]).baseline.None?))
      && (|screens| > 0 && Choose(prefix, screens[0]).baseline.None? ==> r == Failure(Unbound(0)))
  {
    ScatterUpToIff(prefix, screens, |screens|);
    if |screens| > 0 && Choose(prefix, screens[0]).baseline.None? {
      ScatterUpToIff(prefix, screens, 0);
      assert Carried(prefix, screens, 1).None?;
      FirstFailure(prefix, screens, |screens|);
    }
  }

  lemma {:induction false} FirstFailure(prefix: string, screens: seq<string>, k: nat)
    requires 0 < k <= |screens| && Choose(prefix, screens[0]).baseline.None?
    ensures ScatterUpTo(prefix, screens, k) == Failure(Unbound(0))
  {
    if k > 1 {
      FirstFailure(prefix, screens, k - 1);
    } else {
      assert Carried(prefix, screens, 1).None?;
    }
  }
}
