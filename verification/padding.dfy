/**
 Keras `pad_sequences([ids], maxlen=n)` with its defaults
 (`padding='pre'`, `truncating='pre'`, `value=0`) for the single sequence
 the decoder is fed: the ids are right-aligned in a row of exactly `n`
 entries, zeros fill the front, and when there are too many ids the
 oldest ones are dropped.
 */
module Padding {

  /** The padded row. Entry `k` lines up with id `k - (n - |ids|)`; positions
      before the first id hold 0. */
  function PadPre(ids: seq<int>, n: nat): (r: seq<int>)
    ensures |r| == n
    ensures forall k :: 0 <= k < n ==>
      r[k] == (if k < n - |ids| then 0 else ids[k - (n - |ids|)])
  {
    if |ids| >= n then ids[|ids| - n..]
    else seq(n - |ids|, _ => 0) + ids
  }

  /** A sequence that already has the target width passes through unchanged. */
  lemma PadPreExactWidth(ids: seq<int>)
    ensures PadPre(ids, |ids|) == ids
  {
  }

  /** Padding an already padded row changes nothing. */
  lemma PadPreIdempotent(ids: seq<int>, n: nat)
    ensures PadPre(PadPre(ids, n), n) == PadPre(ids, n)
  {
    PadPreExactWidth(PadPre(ids, n));
  }

  /** Short input: a block of zeros followed by every id, in order. */
  lemma PadPreShort(ids: seq<int>, n: nat)
    requires |ids| <= n
    ensures PadPre(ids, n)[n - |ids|..] == ids
    ensures forall k :: 0 <= k < n - |ids| ==> PadPre(ids, n)[k] == 0
  {
  }

  /** Long input: exactly the last `n` ids survive. */
  lemma PadPreLong(ids: seq<int>, n: nat)
    requires |ids| >= n
    ensures PadPre(ids, n) == ids[|ids| - n..]
  {
  }
}
