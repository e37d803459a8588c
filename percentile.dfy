/** numpy's `np.percentile(x, q)` with its default linear interpolation, computed exactly over the reals. */
module Percentile {

  predicate Sorted(s: seq<real>)
  {
    forall i, j :: 0 <= i < j < |s| ==> s[i] <= s[j]
  }

  /** Inserts `x` into the sorted sequence `s`. */
  function Insert(x: real, s: seq<real>): (r: seq<real>)
    requires Sorted(s)
    ensures Sorted(r)
    ensures |r| == |s| + 1 && r[0] == (if s != [] && s[0] < x then s[0] else x)
    ensures multiset(r) == multiset(s) + multiset{x}
  {
    if s == [] then [x]
    else if x <= s[0] then [x] + s
    else
      assert s == [s[0]] + s[1..];
      [s[0]] + Insert(x, s[1..])
  }

  /** The values of `s` in ascending order (insertion sort). */
  function Sort(s: seq<real>): (r: seq<real>)
    ensures Sorted(r)
    ensures multiset(r) == multiset(s)
    ensures |r| == |s|
  {
    if s == [] then []
    else
      assert s == [s[0]] + s[1..];
      Insert(s[0], Sort(s[1..]))
  }

  /** numpy places the 95th percentile of n sorted values at the virtual position
      h = (n - 1) * 0.95; this is floor(h). */
  function LowerPosition(n: nat): (lo: nat)
    requires n > 0
    ensures lo < n
  {
    (n - 1) * 95 / 100
  }

  /** The fractional part h - floor(h) of the virtual position. */
  function Fraction(n: nat): (f: real)
    requires n > 0
    ensures 0.0 <= f < 1.0
  {
    ((n - 1) * 95 % 100) as real / 100.0
  }

  /** floor(h) and h - floor(h) make up numpy's virtual position h = (n - 1) * 0.95. */
  lemma VirtualIndex(n: nat)
    requires n > 0
    ensures LowerPosition(n) as real + Fraction(n) == (n - 1) as real * 0.95
  {
    var m := (n - 1) * 95;
    assert m == 100 * (m / 100) + m % 100;
  }

  /** numpy's linear interpolation between neighbouring values `a` and `b`. */
  function Interpolate(a: real, b: real, f: real): real
  {
    a + f * (b - a)
  }

  lemma InterpolateBetween(a: real, b: real, f: real)
    requires a <= b && 0.0 <= f < 1.0
    ensures a <= Interpolate(a, b, f) <= b
  {
    var d := b - a;
    assert d - f * d == (1.0 - f) * d;
    ProductNonNegative(1.0 - f, d);
    ProductNonNegative(f, d);
  }

  /** `np.percentile(x, 95)`, the noise threshold of the filter: the sorted sample is
      interpolated linearly between the values at floor(h) and floor(h) + 1. */
  function Percentile95(xs: seq<real>): (p: real)
    requires |xs| > 0
    ensures Sort(xs)[0] <= p <= Sort(xs)[|xs| - 1]
  {
    var v := Sort(xs);
    var lo := LowerPosition(|v|);
    if lo + 1 < |v| then
      InterpolateBetween(v[lo], v[lo + 1], Fraction(|v|));
      Interpolate(v[lo], v[lo + 1], Fraction(|v|))
    else v[lo]
  }

  /** The sorted value at floor(h), the lower end of the interpolation. */
  function LowNeighbour(xs: seq<real>): real
    requires |xs| > 0
  {
    Sort(xs)[LowerPosition(|xs|)]
  }

  /** The sorted value at floor(h) + 1, or at floor(h) when that is the last position. */
  function HighNeighbour(xs: seq<real>): real
    requires |xs| > 0
  {
    var lo := LowerPosition(|xs|);
    Sort(xs)[if lo + 1 < |xs| then lo + 1 else lo]
  }

  /** The percentile lies between two sample values, the sorted neighbours around the
      virtual position. */
  lemma Percentile95Bounds(xs: seq<real>)
    requires |xs| > 0
    ensures LowNeighbour(xs) in xs && HighNeighbour(xs) in xs
    ensures LowNeighbour(xs) <= Percentile95(xs) <= HighNeighbour(xs)
  {
    var v := Sort(xs);
    var lo := LowerPosition(|v|);
    if lo + 1 < |v| {
      InterpolateBetween(v[lo], v[lo + 1], Fraction(|v|));
    }
    InSorted(xs, lo);
    InSorted(xs, if lo + 1 < |v| then lo + 1 else lo);
  }

  /** Every position of the sorted sample holds a value of the sample. */
  lemma InSorted(xs: seq<real>, i: nat)
    requires i < |xs|
    ensures Sort(xs)[i] in xs
  {
    var v := Sort(xs);
    assert v[i] in multiset(v);
    assert v[i] in multiset(xs);
  }

  /** A sample whose values are all equal has that value as its percentile. */
  lemma Percentile95OfConstant(xs: seq<real>, c: real)
    requires |xs| > 0
    requires forall i :: 0 <= i < |xs| ==> xs[i] == c
    ensures Percentile95(xs) == c
  {
    Percentile95Bounds(xs);
    var i :| 0 <= i < |xs| && xs[i] == LowNeighbour(xs);
    var k :| 0 <= k < |xs| && xs[k] == HighNeighbour(xs);
  }

  lemma ProductNonNegative(x: real, y: real)
    requires 0.0 <= x && 0.0 <= y
    ensures 0.0 <= x * y
  {
  }
}
