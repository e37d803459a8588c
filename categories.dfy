/** The colour each plot gives a guide: the first of four tags its id contains, tested in
    the fixed order `Wnt`, `CTRL`, `Tcr`, `Ess` (one colour-palette column per tag; the
    script keeps the first column that holds). */
module Categories {
  import opened Wrappers
  import opened Text
  import opened Seqs

  /** The four guide categories, one per palette colour. */
  datatype Category = WntGuide | NegativeControl | TcrGuide | EssentialGuide

  /** The substring that puts a guide in a category. */
  function Tag(c: Category): string
  {
    match c
    case WntGuide => "Wnt"
    case NegativeControl => "CTRL"
    case TcrGuide => "Tcr"
    case EssentialGuide => "Ess"
  }

  /** The categories in the order of the palette columns. */
  const Priority: seq<Category> := [WntGuide, NegativeControl, TcrGuide, EssentialGuide]

  /** `colors.apply(lambda x: x[x].index.tolist()[0], axis=1)` for one guide: the first
      category whose tag the id contains; `None` where the script raises `IndexError`. */
  function Classify(guide: string): (r: Option<Category>)
  {
    if Contains(guide, "Wnt") then Some(WntGuide)
    else if Contains(guide, "CTRL") then Some(NegativeControl)
    else if Contains(guide, "Tcr") then Some(TcrGuide)
    else if Contains(guide, "Ess") then Some(EssentialGuide)
    else None
  }

  /** Reference definition: scan a priority list for the first category whose tag matches. */
  function FirstMatch(order: seq<Category>, guide: string): Option<Category>
  {
    if order == [] then None
    else if Contains(guide, Tag(order[0])) then Some(order[0])
    else FirstMatch(order[1..], guide)
  }

  /** The classifier is the scan of the palette order. */
  lemma ClassifyIsFirstMatch(guide: string)
    ensures Classify(guide) == FirstMatch(Priority, guide)
  {
    var order: seq<Category> := [EssentialGuide];
    assert order[1..] == [];
    var expected := if Contains(guide, "Ess") then Some(EssentialGuide) else None;
    assert FirstMatch(order, guide) == expected;
    order := [TcrGuide] + order;
    assert order[1..] == [EssentialGuide];
    expected := if Contains(guide, "Tcr") then Some(TcrGuide) else expected;
    assert FirstMatch(order, guide) == expected;
    order := [NegativeControl] + order;
    assert order[1..] == [TcrGuide, EssentialGuide];
    expected := if Contains(guide, "CTRL") then Some(NegativeControl) else expected;
    assert FirstMatch(order, guide) == expected;
    order := [WntGuide] + order;
    assert order[1..] == [NegativeControl, TcrGuide, EssentialGuide];
    expected := if Contains(guide, "Wnt") then Some(WntGuide) else expected;
    assert FirstMatch(order, guide) == expected;
    assert order == Priority;
  }

  /** Position of a category in the palette order. */
  function Rank(c: Category): (k: nat)
    ensures k < |Priority| && Priority[k] == c
  {
    match c
    case WntGuide => 0
    case NegativeControl => 1
    case TcrGuide => 2
    case EssentialGuide => 3
  }

  /** A guide gets category `c` exactly when its id contains `c`'s tag and no tag earlier in
      the palette order; it gets none exactly when it contains no tag. */
  lemma ClassifyCharacterised(guide: string, c: Category)
    ensures Classify(guide) == Some(c) <==>
      Contains(guide, Tag(c)) && forall k :: 0 <= k < Rank(c) ==> !Contains(guide, Tag(Priority[k]))
    ensures Classify(guide).None? <==> forall k :: 0 <= k < |Priority| ==> !Contains(guide, Tag(Priority[k]))
  {
    assert Tag(Priority[0]) == "Wnt" && Tag(Priority[1]) == "CTRL";
    assert Tag(Priority[2]) == "Tcr" && Tag(Priority[3]) == "Ess";
    if Classify(guide).None? {
      forall k | 0 <= k < |Priority| ensures !Contains(guide, Tag(Priority[k])) {
        assert k == 0 || k == 1 || k == 2 || k == 3;
      }
    }
    if Contains(guide, Tag(c)) && forall k :: 0 <= k < Rank(c) ==> !Contains(guide, Tag(Priority[k])) {
      assert Rank(c) > 0 ==> !Contains(guide, Tag(Priority[0]));
      assert Rank(c) > 1 ==> !Contains(guide, Tag(Priority[1]));
      assert Rank(c) > 2 ==> !Contains(guide, Tag(Priority[2]));
    }
    if Classify(guide) == Some(c) {
      forall k | 0 <= k < Rank(c) ensures !Contains(guide, Tag(Priority[k])) {
        assert k == 0 || k == 1 || k == 2;
      }
    }
  }

  /** A Wnt guide that is also a control (say `Wnt_CTRL_1`) is coloured as a Wnt guide:
      the tag earliest in the palette order wins. */
  lemma EarliestTagWins(guide: string)
    requires Contains(guide, "Wnt") && Contains(guide, "CTRL")
    ensures Classify(guide) == Some(WntGuide)
  {
  }

  /** Why a plot's colour list cannot be built. */
  datatype ClassifyError =
    | Unclassified(position: nat)  // the guide at `position` has none of the four tags
    | EmptySeries                  // no guide at all: `apply` on the zero-row frame hands
                                   // back a frame, which has no `tolist`

  /** The colours of the guides, in row order, or the first guide without a tag. */
  function ClassifyEach(guides: seq<string>): (r: Result<seq<Category>, ClassifyError>)
    ensures r.Success? ==> |r.value| == |guides|
    ensures r.Success? ==> forall a :: 0 <= a < |guides| ==> Classify(guides[a]) == Some(r.value[a])
    ensures r.Failure? ==> r.error.Unclassified?
    ensures r.Failure? ==>
      && r.error.position < |guides| && Classify(guides[r.error.position]).None?
      && forall a :: 0 <= a < r.error.position ==> Classify(guides[a]).Some?
  {
    if guides == [] then Success([])
    else
      var n := |guides| - 1;
      match ClassifyEach(guides[..n])
      case Failure(e) => Failure(e)
      case Success(cs) =>
        match Classify(guides[n])
        case None => Failure(Unclassified(n))
        case Some(c) => Success(cs + [c])
  }

  /** The colour list of a plot: `colors.apply(..., axis=1).tolist()`. A guide without a tag
      makes the lookup raise; a plot with no guide at all raises too. */
  function ClassifyAll(guides: seq<string>): (r: Result<seq<Category>, ClassifyError>)
    ensures r.Success? ==> |r.value| == |guides| > 0
    ensures r.Success? ==> forall a :: 0 <= a < |guides| ==> Classify(guides[a]) == Some(r.value[a])
    ensures r == Failure(EmptySeries) <==> guides == []
    ensures r.Failure? && r.error.Unclassified? ==>
      && r.error.position < |guides| && Classify(guides[r.error.position]).None?
      && forall a :: 0 <= a < r.error.position ==> Classify(guides[a]).Some?
  {
    if guides == [] then Failure(EmptySeries) else ClassifyEach(guides)
  }

  /** The colour list fails exactly when there is no guide or some guide has no tag. */
  lemma ClassifyAllFails(guides: seq<string>)
    ensures ClassifyAll(guides).Failure? <==>
      guides == [] || exists a :: 0 <= a < |guides| && Classify(guides[a]).None?
  {
    if ClassifyAll(guides).Failure? && guides != [] {
      var a := ClassifyAll(guides).error.position;
      assert Classify(guides[a]).None?;
    }
  }

  /** `series.index.str.contains(tag)` selection of `screen_zscore`: the values of the guides
      whose id contains `tag`, in order (positive controls use `Essential`, negative ones
      `CTRL`). */
  function ValuesTagged(guides: seq<string>, values: seq<real>, tag: string): (r: seq<real>)
    requires |guides| == |values|
  {
    if guides == [] then []
    else
      var n := |guides| - 1;
      ValuesTagged(guides[..n], values[..n], tag) + (if Contains(guides[n], tag) then [values[n]] else [])
  }

  /** Which guides contain `tag` (`series.index.str.contains(tag)`). */
  function TagMask(guides: seq<string>, tag: string): (mask: seq<bool>)
    ensures |mask| == |guides|
  {
    seq(|guides|, a requires 0 <= a < |guides| => Contains(guides[a], tag))
  }

  /** The selection is exactly the values at the positions of the guides containing the tag,
      in series order and with every repeat kept. */
  lemma {:induction false} ValuesTaggedIsSelection(guides: seq<string>, values: seq<real>, tag: string)
    requires |guides| == |values|
    ensures ValuesTagged(guides, values, tag) == Select(values, TrueIndices(TagMask(guides, tag)))
  {
    if guides != [] {
      var n := |guides| - 1;
      var mask := TagMask(guides, tag);
      assert mask[..n] == TagMask(guides[..n], tag);
      ValuesTaggedIsSelection(guides[..n], values[..n], tag);
      var front := TrueIndices(mask[..n]);
      var tail: seq<nat> := if mask[n] then [n] else [];
      assert TrueIndices(mask) == front + tail;
      SelectAppend(values, front, tail);
      SelectPrefix(values, n, front);
    }
  }

  /** A value belongs to the selection exactly when some guide whose id contains the tag
      holds it, and the selection is never longer than the series. */
  lemma {:induction false} ValuesTaggedIff(guides: seq<string>, values: seq<real>, tag: string, v: real)
    requires |guides| == |values|
    ensures |ValuesTagged(guides, values, tag)| <= |values|
    ensures v in ValuesTagged(guides, values, tag) <==>
      exists a :: 0 <= a < |guides| && Contains(guides[a], tag) && values[a] == v
  {
    if guides != [] {
      var n := |guides| - 1;
      ValuesTaggedIff(guides[..n], values[..n], tag, v);
      if a :| 0 <= a < |guides| && Contains(guides[a], tag) && values[a] == v {
        if a < n {
          assert guides[..n][a] == guides[a] && values[..n][a] == values[a];
        }
      }
      if a :| 0 <= a < n && Contains(guides[..n][a], tag) && values[..n][a] == v {
        assert guides[a] == guides[..n][a];
      }
    }
  }
}
