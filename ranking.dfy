/** `series.rank(ascending=False, method="first")`, as the rank plots use it on fold-changes:
    the largest value gets rank 1, equal values are ranked in the order they appear, and a
    missing value keeps a missing rank (pandas' default `na_option="keep"`). */
module Ranking {
  import opened Wrappers

  /** The number of defined entries. */
  function CountDefined(xs: seq<Option<real>>): nat
  {
    if xs == [] then 0 else CountDefined(xs[..|xs| - 1]) + (if xs[|xs| - 1].Some? then 1 else 0)
  }

  /** The number of defined entries larger than `v`. */
  function CountAbove(xs: seq<Option<real>>, v: real): nat
  {
    if xs == [] then 0
    else CountAbove(xs[..|xs| - 1], v) + (if xs[|xs| - 1].Some? && xs[|xs| - 1].value > v then 1 else 0)
  }

  /** The number of defined entries equal to `v`. */
  function CountEqual(xs: seq<Option<real>>, v: real): nat
  {
    if xs == [] then 0
    else CountEqual(xs[..|xs| - 1], v) + (if xs[|xs| - 1] == Some(v) then 1 else 0)
  }

  /** The rank of the defined entry at `i`: one more than the number of larger entries and
      of equal entries before it. */
  function RankOf(xs: seq<Option<real>>, i: nat): nat
    requires i < |xs| && xs[i].Some?
  {
    1 + CountAbove(xs, xs[i].value) + CountEqual(xs[..i], xs[i].value)
  }

  /** The rank series: a rank for every defined entry, a missing rank for a missing one. */
  function RankFirst(xs: seq<Option<real>>): (r: seq<Option<nat>>)
    ensures |r| == |xs|
    ensures forall i :: 0 <= i < |xs| && r[i].Some? ==> 1 <= r[i].value <= CountDefined(xs)
  {
    AllRanksBounded(xs);
    seq(|xs|, i requires 0 <= i < |xs| => if xs[i].Some? then Some(RankOf(xs, i)) else None)
  }

  // ---------------------------------------------------------------------------
  // Counting
  // ---------------------------------------------------------------------------

  /** Larger or equal entries are among the defined ones, and a prefix counts no more than
      the whole sequence. */
  lemma {:induction false} CountsBounded(xs: seq<Option<real>>, v: real)
    ensures CountAbove(xs, v) + CountEqual(xs, v) <= CountDefined(xs)
  {
    if xs != [] {
      CountsBounded(xs[..|xs| - 1], v);
    }
  }

  lemma {:induction false} PrefixCounts(xs: seq<Option<real>>, i: nat, v: real)
    requires i <= |xs|
    ensures CountEqual(xs[..i], v) <= CountEqual(xs, v)
    decreases |xs|
  {
    if i < |xs| {
      var n := |xs| - 1;
      assert xs[..n][..i] == xs[..i];
      PrefixCounts(xs[..n], i, v);
    } else {
      assert xs[..i] == xs;
    }
  }

  /** The entry at `i` is one of the equal entries that the prefix before it misses. */
  lemma EqualBefore(xs: seq<Option<real>>, i: nat, j: nat)
    requires i < j <= |xs| && xs[i].Some?
    ensures CountEqual(xs[..i], xs[i].value) < CountEqual(xs[..j], xs[i].value)
  {
    var v := xs[i].value;
    assert xs[..i + 1][..i] == xs[..i];
    assert xs[..j][..i + 1] == xs[..i + 1];
    PrefixCounts(xs[..j], i + 1, v);
  }

  /** Everything at least `v` is above any `w` smaller than `v`. */
  lemma {:induction false} AboveSplit(xs: seq<Option<real>>, w: real, v: real)
    requires w < v
    ensures CountAbove(xs, v) + CountEqual(xs, v) <= CountAbove(xs, w)
  {
    if xs != [] {
      AboveSplit(xs[..|xs| - 1], w, v);
    }
  }

  // ---------------------------------------------------------------------------
  // Order
  // ---------------------------------------------------------------------------

  /** Every rank lies between 1 and the number of defined entries. */
  lemma RankBounds(xs: seq<Option<real>>, i: nat)
    requires i < |xs| && xs[i].Some?
    ensures 1 <= RankOf(xs, i) <= CountDefined(xs)
  {
    var v := xs[i].value;
    EqualBefore(xs, i, |xs|);
    assert xs[..|xs|] == xs;
    CountsBounded(xs, v);
  }

  lemma AllRanksBounded(xs: seq<Option<real>>)
    ensures forall i :: 0 <= i < |xs| && xs[i].Some? ==> 1 <= RankOf(xs, i) <= CountDefined(xs)
  {
    forall i | 0 <= i < |xs| && xs[i].Some? {
      RankBounds(xs, i);
    }
  }

  /** A strictly larger value gets a strictly smaller rank. */
  lemma LargerRanksFirst(xs: seq<Option<real>>, i: nat, j: nat)
    requires i < |xs| && j < |xs| && xs[i].Some? && xs[j].Some?
    requires xs[i].value > xs[j].value
    ensures RankOf(xs, i) < RankOf(xs, j)
  {
    var v := xs[i].value;
    EqualBefore(xs, i, |xs|);
    assert xs[..|xs|] == xs;
    AboveSplit(xs, xs[j].value, v);
  }

  /** Of two equal values, the one that comes first gets the smaller rank. */
  lemma TiesInOrder(xs: seq<Option<real>>, i: nat, j: nat)
    requires i < j < |xs| && xs[i].Some? && xs[i] == xs[j]
    ensures RankOf(xs, i) < RankOf(xs, j)
  {
    EqualBefore(xs, i, j);
  }

  /** Ranks compare exactly as the values do, with position breaking ties. */
  lemma RankOrder(xs: seq<Option<real>>, i: nat, j: nat)
    requires i < |xs| && j < |xs| && xs[i].Some? && xs[j].Some?
    ensures RankOf(xs, i) < RankOf(xs, j) <==>
      xs[i].value > xs[j].value || (xs[i].value == xs[j].value && i < j)
  {
    if xs[i].value > xs[j].value {
      LargerRanksFirst(xs, i, j);
    } else if xs[j].value > xs[i].value {
      LargerRanksFirst(xs, j, i);
    } else if i < j {
      TiesInOrder(xs, i, j);
    } else if j < i {
      TiesInOrder(xs, j, i);
    }
  }

  // ---------------------------------------------------------------------------
  // Permutation
  // ---------------------------------------------------------------------------

  /** The positions of the defined entries. */
  function DefinedPositions(xs: seq<Option<real>>): set<nat>
  {
    set i: nat | i < |xs| && xs[i].Some?
  }

  /** The ranks given to a set of defined positions. */
  function RanksAt(xs: seq<Option<real>>, s: set<nat>): set<nat>
    requires forall i :: i in s ==> i < |xs| && xs[i].Some?
  {
    set i | i in s :: RankOf(xs, i)
  }

  /** `{1, ..., n}`. */
  function Interval(n: nat): set<nat>
  {
    if n == 0 then {} else Interval(n - 1) + {n}
  }

  lemma {:induction false} IntervalMembers(n: nat, k: nat)
    ensures k in Interval(n) <==> 1 <= k <= n
  {
    if n > 0 {
      IntervalMembers(n - 1, k);
    }
  }

  lemma {:induction false} DefinedPositionsCount(xs: seq<Option<real>>)
    ensures |DefinedPositions(xs)| == CountDefined(xs)
  {
    if xs != [] {
      var n := |xs| - 1;
      DefinedPositionsCount(xs[..n]);
      if xs[n].Some? {
        assert DefinedPositions(xs) == DefinedPositions(xs[..n]) + {n};
      } else {
        assert DefinedPositions(xs) == DefinedPositions(xs[..n]);
      }
    }
  }

  lemma {:induction false} IntervalSize(n: nat)
    ensures |Interval(n)| == n
  {
    if n > 0 {
      IntervalSize(n - 1);
      IntervalMembers(n - 1, n);
    }
  }

  /** Distinct positions have distinct ranks, so a set of positions has as many ranks. */
  lemma {:induction false} RanksAtCount(xs: seq<Option<real>>, s: set<nat>)
    requires forall i :: i in s ==> i < |xs| && xs[i].Some?
    ensures |RanksAt(xs, s)| == |s|
    decreases |s|
  {
    if s != {} {
      var i :| i in s;
      var rest := s - {i};
      RanksAtCount(xs, rest);
      assert RanksAt(xs, s) == RanksAt(xs, rest) + {RankOf(xs, i)};
      forall j | j in rest ensures RankOf(xs, j) != RankOf(xs, i) {
        RankOrder(xs, i, j);
        RankOrder(xs, j, i);
      }
    }
  }

  lemma {:induction false} SubsetOfSameSize(a: set<nat>, b: set<nat>)
    requires a <= b && |a| == |b|
    ensures a == b
  {
    if a != b {
      var k :| k in b && k !in a;
      assert a <= b - {k};
      assert |b - {k}| == |b| - 1;
      SubsetSize(a, b - {k});
    }
  }

  lemma {:induction false} SubsetSize(a: set<nat>, b: set<nat>)
    requires a <= b
    ensures |a| <= |b|
    decreases |b|
  {
    if a != {} {
      var x :| x in a;
      SubsetSize(a - {x}, b - {x});
    }
  }

  /** The ranks of the defined entries are exactly 1, ..., n for n defined entries, each given
      to one entry: a permutation of 1..n. */
  lemma RanksArePermutation(xs: seq<Option<real>>)
    ensures RanksAt(xs, DefinedPositions(xs)) == Interval(CountDefined(xs))
    ensures forall i, j :: i in DefinedPositions(xs) && j in DefinedPositions(xs) && i != j ==>
      RankOf(xs, i) != RankOf(xs, j)
  {
    var d := DefinedPositions(xs);
    forall i | i in d ensures RankOf(xs, i) in Interval(CountDefined(xs)) {
      RankBounds(xs, i);
      IntervalMembers(CountDefined(xs), RankOf(xs, i));
    }
    DefinedPositionsCount(xs);
    RanksAtCount(xs, d);
    IntervalSize(CountDefined(xs));
    SubsetOfSameSize(RanksAt(xs, d), Interval(CountDefined(xs)));
    forall i, j | i in d && j in d && i != j ensures RankOf(xs, i) != RankOf(xs, j) {
      RankOrder(xs, i, j);
      RankOrder(xs, j, i);
    }
  }

  /** The rank series has a rank exactly where the values are defined. */
  lemma RankFirstShape(xs: seq<Option<real>>)
    ensures |RankFirst(xs)| == |xs|
    ensures forall i :: 0 <= i < |xs| ==> (RankFirst(xs)[i].Some? <==> xs[i].Some?)
    ensures forall i :: 0 <= i < |xs| && xs[i].Some? ==> RankFirst(xs)[i] == Some(RankOf(xs, i))
  {
  }

  /** Fold-changes 2.0, -1.0 and 0.5 rank 1, 3 and 2. */
  lemma RankExample()
    ensures RankFirst([Some(2.0), Some(-1.0), Some(0.5)]) == [Some(1), Some(3), Some(2)]
  {
    var xs := [Some(2.0), Some(-1.0), Some(0.5)];
    assert xs[..2] == [Some(2.0), Some(-1.0)];
    assert xs[..2][..1] == [Some(2.0)] == xs[..1];
    assert xs[..1][..0] == [] == xs[..0];
    assert CountAbove(xs[..1], 2.0) == 0 && CountAbove(xs[..2], 2.0) == 0 && CountAbove(xs, 2.0) == 0;
    assert CountAbove(xs[..1], -1.0) == 1 && CountAbove(xs[..2], -1.0) == 1 && CountAbove(xs, -1.0) == 2;
    assert CountAbove(xs[..1], 0.5) == 1 && CountAbove(xs[..2], 0.5) == 1 && CountAbove(xs, 0.5) == 1;
    assert CountEqual(xs[..0], 2.0) == 0;
    assert CountEqual(xs[..1], -1.0) == 0;
    assert CountEqual(xs[..1], 0.5) == 0 && CountEqual(xs[..2], 0.5) == 0;
  }
}
