/**
 Address arithmetic of the alignment preflights. The buffer's base address is
 the number `p`; byte `i` of the buffer lives at address `p + i`. Alignments
 are the two vector widths in use: 16 bytes (NEON) and 32 bytes (AVX2).
 */
module Align {

  /** The alignments the preflights ask for. */
  predicate VectorWidth(w: nat)
  {
    w == 16 || w == 32
  }

  /** Address `q` is a multiple of `w`. */
  predicate Aligned(q: nat, w: nat)
    requires w > 0
  {
    q % w == 0
  }

  /** `ptr.align_offset(w)` for a byte pointer at address `a`: the distance up to the next multiple of `w`. */
  function AlignOffset(a: nat, w: nat): (r: nat)
    requires VectorWidth(w)
    ensures r < w && Aligned(a + r, w)
    ensures forall q :: a <= q < a + r ==> !Aligned(q, w)
  {
    NextMultiple(a, w);
    (w - a % w) % w
  }

  /**
   `index + ptr.add(index).align_offset(w) - w`, the start of the vector
   region in the preflights that align the last byte's address: the highest
   index strictly below `index` whose address is a multiple of `w`.
   */
  function AlignedBelow(p: nat, index: nat, w: nat): (ai: nat)
    requires VectorWidth(w) && w <= index
    ensures index - w <= ai < index
    ensures Aligned(p + ai, w)
    ensures forall q :: p + ai < q < p + index ==> !Aligned(q, w)
  {
    var off := AlignOffset(p + index, w);
    AlignedMinus(p + index + off, w);
    NoneAbove(p + index + off - w, p + index, w);
    index + off - w
  }

  /**
   `len + ptr.add(len).align_offset(w) - w` when the end address is not
   aligned, `len` itself when it is: the highest index at or below `len`
   whose address is a multiple of `w`.
   */
  function AlignedAtOrBelow(p: nat, len: nat, w: nat): (r: nat)
    requires VectorWidth(w) && w <= len
    ensures len - w < r <= len
    ensures Aligned(p + r, w)
    ensures forall q :: p + r < q <= p + len ==> !Aligned(q, w)
  {
    var off := AlignOffset(p + len, w);
    if off != 0 then AlignedBelow(p, len, w) else len
  }

  /** The distance `(w - a % w) % w` leads to the first multiple of `w` at or above `a`. */
  lemma NextMultiple(a: nat, w: nat)
    requires VectorWidth(w)
    ensures (a + (w - a % w) % w) % w == 0
    ensures forall q :: a <= q < a + (w - a % w) % w ==> !Aligned(q, w)
  {
    DivMod(a, w);
    if a % w != 0 {
      DivMod(a - a % w, w);
      DivMod(a + (w - a % w), w);
      NoneAbove(a - a % w, a + (w - a % w), w);
    }
  }

  /** Nothing strictly between an aligned `x` and `y <= x + w` is aligned. */
  lemma NoneAbove(x: nat, y: nat, w: nat)
    requires VectorWidth(w) && Aligned(x, w) && y <= x + w
    ensures forall q :: x < q < y ==> !Aligned(q, w)
  {
    forall q | x < q < y
      ensures !Aligned(q, w)
    {
      NoMultipleBetween(x, q, w);
    }
  }

  /** Division by a vector width, spelt out. */
  lemma DivMod(x: nat, w: nat)
    requires VectorWidth(w)
    ensures x == w * (x / w) + x % w && 0 <= x % w < w
  {
  }

  /** Stepping down one width keeps an address aligned. */
  lemma AlignedMinus(x: nat, w: nat)
    requires VectorWidth(w) && Aligned(x, w) && x >= w
    ensures Aligned(x - w, w)
  {
    DivMod(x, w);
    DivMod(x - w, w);
  }

  /** No multiple of `w` lies strictly between two neighbouring ones. */
  lemma NoMultipleBetween(x: nat, q: nat, w: nat)
    requires VectorWidth(w) && Aligned(x, w) && x < q < x + w
    ensures !Aligned(q, w)
  {
    DivMod(x, w);
    DivMod(q, w);
  }
}
