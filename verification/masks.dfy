/**
 Match masks of vector windows. A mask is a bit vector written as a sequence
 of booleans, entry `k` being bit `k` (entry 0 is the least significant bit,
 which the compare-and-movemask instructions tie to the lowest address of the
 window). Only the mask semantics is modelled, not the SIMD instructions.
 */
module Masks {
  import opened Spec

  type Mask = seq<bool>

  /** The mask has no set bit (`matches == 0`). */
  predicate IsZero(m: Mask)
  {
    forall k :: 0 <= k < |m| ==> !m[k]
  }

  /** Number of set bits. */
  function CountSet(m: Mask): nat
  {
    if |m| == 0 then 0 else (if m[|m| - 1] then 1 else 0) + CountSet(m[..|m| - 1])
  }

  /**
   `leading_zeros`: the number of clear bits above the highest set bit, the
   width itself for a zero mask.
   */
  function LeadingZeros(m: Mask): (r: nat)
    ensures r <= |m|
    ensures forall k :: |m| - r <= k < |m| ==> !m[k]
    ensures r < |m| ==> m[|m| - 1 - r]
    ensures r == |m| <==> IsZero(m)
  {
    if |m| == 0 then 0
    else if m[|m| - 1] then 0
    else 1 + LeadingZeros(m[..|m| - 1])
  }

  /** `_bzhi_*(m, n)`: clears every bit at position `n` and above. */
  function Bzhi(m: Mask, n: nat): Mask
  {
    seq(|m|, k requires 0 <= k < |m| => k < n && m[k])
  }

  /** `m & !(1 << n)`: clears bit `n`. */
  function ClearBit(m: Mask, n: nat): Mask
    requires n < |m|
  {
    m[n := false]
  }

  /**
   Clearing below the highest set bit, as the match loops do with
   `_bzhi_u64(matches, 63 - leading)`, is the same as clearing just that bit,
   as the comment beside the call promises.
   */
  lemma BzhiClearsHighest(m: Mask)
    requires !IsZero(m)
    ensures LeadingZeros(m) < |m|
    ensures Bzhi(m, |m| - 1 - LeadingZeros(m)) == ClearBit(m, |m| - 1 - LeadingZeros(m))
  {
    var h := |m| - 1 - LeadingZeros(m);
    var z, c := Bzhi(m, h), ClearBit(m, h);
    assert |z| == |c|;
    forall k | 0 <= k < |m|
      ensures z[k] == c[k]
    {
      if k > h {
        assert !m[k];
      }
    }
  }

  /** Clearing a set bit removes exactly one from the count. */
  lemma {:induction false} CountClearBit(m: Mask, n: nat)
    requires n < |m| && m[n]
    ensures CountSet(ClearBit(m, n)) + 1 == CountSet(m)
    decreases |m|
  {
    var c := ClearBit(m, n);
    assert c[..|c| - 1] == if n == |m| - 1 then m[..|m| - 1] else ClearBit(m[..|m| - 1], n);
    if n < |m| - 1 {
      CountClearBit(m[..|m| - 1], n);
    }
  }

  /** Each BZHI step of a match loop consumes exactly one set bit. */
  lemma CountBzhiHighest(m: Mask)
    requires !IsZero(m)
    ensures LeadingZeros(m) < |m|
    ensures CountSet(Bzhi(m, |m| - 1 - LeadingZeros(m))) + 1 == CountSet(m)
  {
    BzhiClearsHighest(m);
    CountClearBit(m, |m| - 1 - LeadingZeros(m));
  }

  /** A zero mask counts no bit. */
  lemma {:induction false} CountZero(m: Mask)
    requires IsZero(m)
    ensures CountSet(m) == 0
    decreases |m|
  {
    if |m| > 0 {
      CountZero(m[..|m| - 1]);
    }
  }

  /** The exact match mask of `b[start..start+width)`: bit `k` is set iff byte `start + k` is `sep`. */
  predicate Exact(m: Mask, b: seq<byte>, sep: byte, start: int)
  {
    0 <= start && start + |m| <= |b|
    && forall k :: 0 <= k < |m| ==> (m[k] <==> b[start + k] == sep)
  }

  /**
   One vector compare followed by a movemask: a window of `width` bytes
   starting at `start` compared with `sep`, one bit per byte.
   */
  function Compare(b: seq<byte>, sep: byte, start: nat, width: nat): (m: Mask)
    requires start + width <= |b|
    ensures |m| == width
  {
    seq(width, k requires 0 <= k < width => b[start + k] == sep)
  }

  /**
   `(hi as u32 as u64) << 32 | lo as u32 as u64`: two 32-bit movemask results
   joined with zero extension, `lo` in the low half.
   */
  function JoinZeroExtended(hi: Mask, lo: Mask): (m: Mask)
    requires |hi| == 32 && |lo| == 32
    ensures |m| == 64
    ensures forall k :: 0 <= k < 32 ==> m[k] == lo[k] && m[32 + k] == hi[k]
  {
    lo + hi
  }

  /**
   The bulk movemask of four 16-byte NEON compares: `r3` (lowest address)
   lands in bits 0..15, then `r2`, `r1`, and `r0` (highest address) in bits 48..63.
   */
  function JoinQuad(r0: Mask, r1: Mask, r2: Mask, r3: Mask): (m: Mask)
    requires |r0| == 16 && |r1| == 16 && |r2| == 16 && |r3| == 16
    ensures |m| == 64
    ensures forall k :: 0 <= k < 16 ==>
      m[k] == r3[k] && m[16 + k] == r2[k] && m[32 + k] == r1[k] && m[48 + k] == r0[k]
  {
    r3 + r2 + r1 + r0
  }

  /** Adjacent exact masks join into the exact mask of the two windows together. */
  lemma ExactJoin(lo: Mask, hi: Mask, b: seq<byte>, sep: byte, start: int)
    requires Exact(lo, b, sep, start) && Exact(hi, b, sep, start + |lo|)
    ensures Exact(lo + hi, b, sep, start)
  {
    forall k | 0 <= k < |lo + hi|
      ensures (lo + hi)[k] <==> b[start + k] == sep
    {
      if k >= |lo| {
        assert (lo + hi)[k] == hi[k - |lo|];
      }
    }
  }
}
