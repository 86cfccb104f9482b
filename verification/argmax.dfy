/**
 `np.argmax` over a flat score vector: the position of the largest score,
 and among equal largest scores the earliest one.
 */
module Argmax {

  /** `k` is the first position holding the maximum of `xs`. */
  ghost predicate IsFirstMax(xs: seq<real>, k: int) {
    && 0 <= k < |xs|
    && (forall j :: 0 <= j < |xs| ==> xs[j] <= xs[k])
    && (forall j :: 0 <= j < k ==> xs[j] < xs[k])
  }

  /** Scans left to right and only moves on a strictly larger score, so the
      first maximum wins ties. */
  function ArgMax(xs: seq<real>): (k: nat)
    requires |xs| > 0
    ensures IsFirstMax(xs, k)
  {
    if |xs| == 1 then 0
    else
      var k := ArgMax(xs[..|xs| - 1]);
      if xs[|xs| - 1] > xs[k] then |xs| - 1 else k
  }

  /** The first maximum is unique, so any index with that property is the
      one `ArgMax` returns. */
  lemma FirstMaxUnique(xs: seq<real>, a: int, b: int)
    requires IsFirstMax(xs, a) && IsFirstMax(xs, b)
    ensures a == b
  {
    assert xs[a] == xs[b];
  }

  /** Every non-empty score vector has a first maximum. */
  lemma FirstMaxExists(xs: seq<real>)
    requires |xs| > 0
    ensures exists k :: IsFirstMax(xs, k)
  {
    assert IsFirstMax(xs, ArgMax(xs));
  }

  /** Any first-maximum position is the one `ArgMax` returns. */
  lemma FirstMaxIsArgMax(xs: seq<real>, k: nat)
    requires |xs| > 0 && k == ArgMax(xs)
    ensures forall j :: IsFirstMax(xs, j) ==> j == k
  {
    forall j | IsFirstMax(xs, j)
      ensures j == k
    {
      FirstMaxUnique(xs, j, k);
    }
  }
}
