/**
 The "modified" bitsets of the WCC context, viewed as sequences of booleans
 indexed by local vertex: bit `v` is set when vertex `v` changed its label.
 The two queries the superstep handlers make of them are the population count
 (`cardinality()`) and the range emptiness test (`partialEmpty(lo, hi)`).
 */
module Bitset {

  /** Number of set bits. */
  function Cardinality(bits: seq<bool>): (c: nat)
    ensures c <= |bits|
    ensures c == 0 <==> forall i :: 0 <= i < |bits| ==> !bits[i]
  {
    if |bits| == 0 then 0
    else Cardinality(bits[..|bits| - 1]) + (if bits[|bits| - 1] then 1 else 0)
  }

  /** The population count is the number of occurrences of `true`. */
  lemma {:induction false} CardinalityCountsTrue(bits: seq<bool>)
    ensures Cardinality(bits) == multiset(bits)[true]
  {
    if |bits| > 0 {
      var front := bits[..|bits| - 1];
      CardinalityCountsTrue(front);
      assert bits == front + [bits[|bits| - 1]];
      assert multiset(bits) == multiset(front) + multiset{bits[|bits| - 1]};
    }
  }

  /** True exactly when no bit in `[lo, hi)` is set. */
  function PartialEmpty(bits: seq<bool>, lo: nat, hi: nat): (empty: bool)
    requires lo <= hi <= |bits|
    ensures empty <==> forall i :: lo <= i < hi ==> !bits[i]
    decreases hi - lo
  {
    lo == hi || (!bits[lo] && PartialEmpty(bits, lo + 1, hi))
  }

  /** The bitset with no member, as left by `clear()`. */
  predicate NoneSet(bits: seq<bool>)
  {
    forall i :: 0 <= i < |bits| ==> !bits[i]
  }

  /** Pointwise union of two bitsets of the same size (a plain definition). */
  function Union(a: seq<bool>, b: seq<bool>): (u: seq<bool>)
    requires |a| == |b|
    ensures |u| == |a|
    ensures forall i :: 0 <= i < |a| ==> (u[i] <==> a[i] || b[i])
  {
    seq(|a|, i requires 0 <= i < |a| => a[i] || b[i])
  }
}
