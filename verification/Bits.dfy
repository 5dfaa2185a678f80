/** Little-endian bit fields in memory: bit p of a buffer is bit (p % 8) of byte p / 8, so the
    64-bit OR and extract of the two routines act on a run of consecutive bits. */
module Bits {

  function Pow2(n: nat): (r: nat)
    ensures r >= 1
  {
    if n == 0 then 1 else 2 * Pow2(n - 1)
  }

  lemma {:induction false} Pow2Mono(m: nat, n: nat)
    requires m <= n
    ensures Pow2(m) <= Pow2(n)
    ensures m < n ==> 2 * Pow2(m) <= Pow2(n)
    decreases n - m
  {
    if m < n {
      Pow2Mono(m + 1, n);
    }
  }

  lemma {:induction false} Pow2Add(m: nat, n: nat)
    ensures Pow2(m + n) == Pow2(m) * Pow2(n)
  {
    if n > 0 {
      Pow2Add(m, n - 1);
    }
  }

  predicate Below(s: seq<nat>, n: nat)
  {
    forall i :: 0 <= i < |s| ==> s[i] < n
  }

  // Bit k of the number v.
  function NumBit(v: nat, k: nat): bool
  {
    if k == 0 then v % 2 == 1 else NumBit(v / 2, k - 1)
  }

  function BitFieldOr(b: seq<bool>, p: nat, v: nat): (r: seq<bool>)
    ensures |r| == |b|
  {
    seq(|b|, i requires 0 <= i < |b| => b[i] || (p <= i && NumBit(v, i - p)))
  }

  function BitFieldExt(b: seq<bool>, p: nat, w: nat): nat
    requires p + w <= |b|
    decreases w
  {
    if w == 0 then 0 else (if b[p] then 1 else 0) + 2 * BitFieldExt(b, p + 1, w - 1)
  }

  lemma {:induction false} HighBitsClear(v: nat, w: nat, k: nat)
    requires v < Pow2(w) && w <= k
    ensures !NumBit(v, k)
  {
    if k == 0 {
    } else if w == 0 {
      HighBitsClear(0, 0, k - 1);
    } else {
      HighBitsClear(v / 2, w - 1, k - 1);
    }
  }

  // A run of bits that spells v reads back as v.
  lemma {:induction false} ExtOfNumBits(b: seq<bool>, p: nat, w: nat, v: nat)
    requires p + w <= |b| && v < Pow2(w)
    requires forall k :: 0 <= k < w ==> b[p + k] == NumBit(v, k)
    ensures BitFieldExt(b, p, w) == v
    decreases w
  {
    if w > 0 {
      assert b[p + 0] == NumBit(v, 0);
      forall k | 0 <= k < w - 1
        ensures b[p + 1 + k] == NumBit(v / 2, k)
      {
        assert b[p + (k + 1)] == NumBit(v, k + 1);
      }
      ExtOfNumBits(b, p + 1, w - 1, v / 2);
    }
  }

  lemma {:induction false} ExtAgree(b: seq<bool>, c: seq<bool>, p: nat, w: nat)
    requires p + w <= |b| && p + w <= |c|
    requires forall i :: p <= i < p + w ==> b[i] == c[i]
    ensures BitFieldExt(b, p, w) == BitFieldExt(c, p, w)
    decreases w
  {
    if w > 0 {
      ExtAgree(b, c, p + 1, w - 1);
    }
  }

  lemma {:induction false} ExtBound(b: seq<bool>, p: nat, w: nat)
    requires p + w <= |b|
    ensures BitFieldExt(b, p, w) < Pow2(w)
    decreases w
  {
    if w > 0 {
      ExtBound(b, p + 1, w - 1);
    }
  }

  lemma {:induction false} ExtSplitTop(b: seq<bool>, p: nat, w: nat)
    requires p + w + 1 <= |b|
    ensures BitFieldExt(b, p, w + 1) == BitFieldExt(b, p, w) + (if b[p + w] then Pow2(w) else 0)
    decreases w
  {
    if w > 0 {
      ExtSplitTop(b, p + 1, w - 1);
    }
  }

  lemma OrOutside(b: seq<bool>, p: nat, w: nat, v: nat, i: nat)
    requires v < Pow2(w) && i < |b| && !(p <= i < p + w)
    ensures BitFieldOr(b, p, v)[i] == b[i]
  {
    if p + w <= i {
      HighBitsClear(v, w, i - p);
    }
  }

  /** Writing into clear bits reads back, and nothing outside the field changes. */
  lemma OrThenExt(b: seq<bool>, p: nat, w: nat, v: nat)
    requires p + w <= |b| && v < Pow2(w)
    requires forall i :: p <= i < p + w ==> !b[i]
    ensures BitFieldExt(BitFieldOr(b, p, v), p, w) == v
    ensures forall i :: 0 <= i < |b| && !(p <= i < p + w) ==> BitFieldOr(b, p, v)[i] == b[i]
  {
    var c := BitFieldOr(b, p, v);
    forall k | 0 <= k < w
      ensures c[p + k] == NumBit(v, k)
    {
      assert !b[p + k];
    }
    ExtOfNumBits(c, p, w, v);
    forall i | 0 <= i < |b| && !(p <= i < p + w) { OrOutside(b, p, w, v, i); }
  }
}
