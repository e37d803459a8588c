/** Selecting entries of a sequence by a boolean mask, the way pandas selects rows or columns. */
module Seqs {
  import opened Wrappers

  /** Positions `0 <= ix[0] < ix[1] < ...` are listed in increasing order. */
  predicate StrictlyIncreasing(ix: seq<nat>)
  {
    forall k, l :: 0 <= k < l < |ix| ==> ix[k] < ix[l]
  }

  /** The positions where `mask` holds, in order (numpy's `np.flatnonzero`). */
  function TrueIndices(mask: seq<bool>): (ix: seq<nat>)
    ensures |ix| <= |mask|
    ensures forall k :: 0 <= k < |ix| ==> ix[k] < |mask|
  {
    if mask == [] then []
    else TrueIndices(mask[..|mask| - 1]) + (if mask[|mask| - 1] then [|mask| - 1] else [])
  }

  /** TrueIndices lists exactly the positions where the mask holds, each once and in order. */
  lemma {:induction false} TrueIndicesCharacterised(mask: seq<bool>)
    ensures StrictlyIncreasing(TrueIndices(mask))
    ensures forall j :: 0 <= j < |mask| ==> (mask[j] <==> j in TrueIndices(mask))
  {
    if mask != [] {
      var n := |mask| - 1;
      TrueIndicesCharacterised(mask[..n]);
      var ix := TrueIndices(mask);
      assert TrueIndices(mask[..n]) == ix[..|TrueIndices(mask[..n])|];
      forall j | 0 <= j < |mask| ensures mask[j] <==> j in ix {
        if j < n {
          assert mask[..n][j] == mask[j];
        }
      }
    }
  }

  /** The first position from `m` on where `ok` fails, if any. */
  function FirstFalse(ok: seq<bool>, m: nat): (r: Option<nat>)
    requires m <= |ok|
    ensures r.Some? ==> m <= r.value < |ok| && !ok[r.value]
    ensures r.Some? ==> forall l :: m <= l < r.value ==> ok[l]
    ensures r.None? ==> forall l :: m <= l < |ok| ==> ok[l]
    decreases |ok| - m
  {
    if m == |ok| then None
    else if !ok[m] then Some(m)
    else FirstFalse(ok, m + 1)
  }

  /** The scan finds `k` when `ok` holds from `m` up to `k` and fails at `k`, and nothing
      when it holds from `m` to the end. */
  lemma {:induction false} FirstFalseAt(ok: seq<bool>, m: nat, k: nat)
    requires m <= k <= |ok|
    requires forall l :: m <= l < k ==> ok[l]
    requires k < |ok| ==> !ok[k]
    ensures FirstFalse(ok, m) == if k < |ok| then Some(k) else None
    decreases |ok| - m
  {
    if m < k {
      FirstFalseAt(ok, m + 1, k);
    }
  }

  /** The entries of `s` at positions `ix` (pandas `.iloc[ix]`). */
  function Select<T>(s: seq<T>, ix: seq<nat>): (r: seq<T>)
    requires forall k :: 0 <= k < |ix| ==> ix[k] < |s|
    ensures |r| == |ix|
    ensures forall k :: 0 <= k < |ix| ==> r[k] == s[ix[k]]
  {
    seq(|ix|, k requires 0 <= k < |ix| => s[ix[k]])
  }

  /** Which entries of `s` are absent from `listed` (pandas `~s.isin(listed)`). */
  function NotListedMask<T(==)>(s: seq<T>, listed: seq<T>): (mask: seq<bool>)
    ensures |mask| == |s|
    ensures forall j :: 0 <= j < |s| ==> (mask[j] <==> s[j] !in listed)
  {
    seq(|s|, j requires 0 <= j < |s| => s[j] !in listed)
  }

  /** Reference definition: the entries of `s` that are not in `listed`, in their original order. */
  function Unlisted<T(==)>(s: seq<T>, listed: seq<T>): seq<T>
  {
    if s == [] then []
    else Unlisted(s[..|s| - 1], listed) + (if s[|s| - 1] in listed then [] else [s[|s| - 1]])
  }

  /** Selecting by the mask `~isin(listed)` gives the reference definition. */
  lemma {:induction false} SelectUnlisted<T>(s: seq<T>, listed: seq<T>)
    ensures Select(s, TrueIndices(NotListedMask(s, listed))) == Unlisted(s, listed)
  {
    if s != [] {
      var n := |s| - 1;
      var mask := NotListedMask(s, listed);
      assert mask[..n] == NotListedMask(s[..n], listed);
      SelectUnlisted(s[..n], listed);
      var front := TrueIndices(mask[..n]);
      var tail: seq<nat> := if mask[n] then [n] else [];
      assert TrueIndices(mask) == front + tail;
      SelectAppend(s, front, tail);
      SelectPrefix(s, n, front);
    }
  }

  lemma SelectAppend<T>(s: seq<T>, ix: seq<nat>, jx: seq<nat>)
    requires forall k :: 0 <= k < |ix| ==> ix[k] < |s|
    requires forall k :: 0 <= k < |jx| ==> jx[k] < |s|
    ensures Select(s, ix + jx) == Select(s, ix) + Select(s, jx)
  {
    assert forall k :: 0 <= k < |ix + jx| ==> (ix + jx)[k] < |s|;
  }

  lemma SelectPrefix<T>(s: seq<T>, n: nat, ix: seq<nat>)
    requires n <= |s|
    requires forall k :: 0 <= k < |ix| ==> ix[k] < n
    ensures Select(s, ix) == Select(s[..n], ix)
  {
  }
}
