/**
 The vectorised scanning machinery shared by the strategies: window masks,
 match resolution from the highest set bit down, and the aligned window loop,
 plus the two strategies that appear unchanged in more than one file.
 */
module Vector {
  import opened Spec
  import opened Scan
  import opened Masks
  import opened Align

  /** How one step of the window loop loads and compares its bytes. */
  datatype Unit =
    | Avx2Pair    // x86_64 AVX2: two aligned 32-byte loads joined into a 64-bit mask
    | Avx2Single  // 32-bit x86 AVX2: one aligned 32-byte load, a 32-bit mask
    | NeonQuad    // AArch64 NEON: four 16-byte loads joined into a 64-bit mask
  {
    /** Bytes covered per step (`SIZE`), which is also the mask width. */
    function Size(): nat
    {
      if Avx2Single? then 32 else 64
    }

    /** Alignment the loads are kept at. */
    function Alignment(): nat
    {
      if NeonQuad? then 16 else 32
    }
  }

  /** Target architectures the dispatchers distinguish. */
  datatype Arch = X86 | X86_64 | AArch64 | OtherArch

  /**
   The build target and what runtime feature detection reports: the
   `avx2`, `lzcnt`, `bmi2` and `neon` probes, and whether the build enabled
   the `nightly` feature.
   */
  datatype Platform = Platform(arch: Arch, avx2: bool, lzcnt: bool, bmi2: bool, neon: bool, nightly: bool)
  {
    predicate IsX86() { arch == X86 || arch == X86_64 }
  }

  /** The search a dispatcher picked. */
  datatype Strategy = Scalar | Avx2(unit: Unit) | Neon

  /**
   `_mm256_load_si256` then compare and movemask. The aligned load demands an
   address that is a multiple of 32.
   */
  function Load256(b: seq<byte>, sep: byte, p: nat, start: nat): (m: Mask)
    requires start + 32 <= |b| && Aligned(p + start, 32)
    ensures |m| == 32 && Exact(m, b, sep, start)
  {
    Compare(b, sep, start, 32)
  }

  /** `vld1q_u8` then `vceqq_u8`: sixteen bytes compared, one mask bit each. */
  function Load128(b: seq<byte>, sep: byte, start: nat): (m: Mask)
    requires start + 16 <= |b|
    ensures |m| == 16 && Exact(m, b, sep, start)
  {
    Compare(b, sep, start, 16)
  }

  /** Stepping an aligned window end down by one step keeps it aligned. */
  lemma AlignedStep(u: Unit, x: nat)
    requires Aligned(x, u.Alignment()) && x >= u.Size()
    ensures Aligned(x - u.Size(), u.Alignment())
    ensures u != NeonQuad ==> Aligned(x - 32, 32)
    ensures u == NeonQuad ==> Aligned(x - 16, 16) && Aligned(x - 32, 16) && Aligned(x - 48, 16)
  {
    var w := u.Alignment();
    AlignedMinus(x, w);
    if u == Avx2Pair {
      AlignedMinus(x - 32, 32);
    } else if u == NeonQuad {
      AlignedMinus(x - 16, 16);
      AlignedMinus(x - 32, 16);
      AlignedMinus(x - 48, 16);
    }
  }

  /**
   The match mask of the window `[windowEnd - Size, windowEnd)` as unit `u`
   builds it: bit `k` is set iff byte `windowEnd - Size + k` is `sep`.
   */
  function WindowMask(u: Unit, b: seq<byte>, sep: byte, p: nat, windowEnd: nat): (m: Mask)
    requires u.Size() <= windowEnd <= |b| && Aligned(p + windowEnd, u.Alignment())
    ensures |m| == u.Size()
    ensures Exact(m, b, sep, windowEnd - u.Size())
  {
    AlignedStep(u, p + windowEnd);
    match u
    case Avx2Single =>
      Load256(b, sep, p, windowEnd - 32)
    case Avx2Pair =>
      var hi := Load256(b, sep, p, windowEnd - 32);
      var lo := Load256(b, sep, p, windowEnd - 64);
      ExactJoin(lo, hi, b, sep, windowEnd - 64);
      JoinZeroExtended(hi, lo)
    case NeonQuad =>
      var r0 := Load128(b, sep, windowEnd - 16);
      var r1 := Load128(b, sep, windowEnd - 32);
      var r2 := Load128(b, sep, windowEnd - 48);
      var r3 := Load128(b, sep, windowEnd - 64);
      ExactJoin(r3, r2, b, sep, windowEnd - 64);
      ExactJoin(r3 + r2, r1, b, sep, windowEnd - 64);
      ExactJoin(r3 + r2 + r1, r0, b, sep, windowEnd - 64);
      JoinQuad(r0, r1, r2, r3)
  }

  /**
   The `while matches != 0` loop: resolves the set bits from the highest
   down. Each resolved bit `h` writes `b[offset..stop]` with
   `offset = windowEnd - leading_zeros`, one past byte `windowEnd - width + h`,
   then clears the bit: with BZHI below it on x86, by masking out that one bit
   on NEON (the two agree, see `BzhiClearsHighest`). Every write is a valid slice whatever the
   mask; when the mask is exact the scan invariant carries over the window.
   */
  method ResolveMatches(u: Unit, b: seq<byte>, sep: byte, windowEnd: nat, mask: Mask, stop: nat, log: seq<seq<byte>>)
    returns (stop': nat, log': seq<seq<byte>>)
    requires |mask| <= windowEnd <= stop <= |b|
    ensures windowEnd - |mask| <= stop' <= stop
    ensures (Exact(mask, b, sep, windowEnd - |mask|) && Progress(b, sep, windowEnd, stop, log)) ==>
      Progress(b, sep, windowEnd - |mask|, stop', log')
  {
    var size := |mask|;
    ghost var exact := Exact(mask, b, sep, windowEnd - size) && Progress(b, sep, windowEnd, stop, log);
    ghost var lo: nat := windowEnd;
    var matches := mask;
    stop', log' := stop, log;
    while !IsZero(matches)
      invariant Resolving(b, sep, mask, windowEnd, stop, exact, lo, matches, stop', log')
      decreases lo
    {
      lo, matches, stop', log' := ResolveNext(u, b, sep, mask, windowEnd, stop, exact, lo, matches, stop', log');
    }
    ResolvingDone(b, sep, mask, windowEnd, stop, exact, lo, matches, stop', log');
  }

  /**
   The state of the match loop: the bits of `mask` below window position
   `lo` are still pending, the cursor lies between `lo` and where it started,
   and, when the mask is exact and the scan invariant held at the window's
   top, it holds at `lo`.
   */
  predicate Resolving(b: seq<byte>, sep: byte, mask: Mask, windowEnd: nat, stop: nat, exact: bool,
                      lo: nat, matches: Mask, stop': nat, log': seq<seq<byte>>)
  {
    && |mask| <= windowEnd <= stop <= |b|
    && windowEnd - |mask| <= lo <= windowEnd && lo <= stop' <= stop
    && Pending(mask, matches, windowEnd - |mask|, lo)
    && (exact ==> Exact(mask, b, sep, windowEnd - |mask|) && Progress(b, sep, lo, stop', log'))
  }

  /**
   One turn of the match loop: the highest pending bit `h` writes
   `b[offset..stop']` with `offset = windowEnd - leading_zeros`, moves the
   cursor to `offset` and clears the bit. The loop state carries over with a
   lower `lo`.
   */
  method ResolveNext(u: Unit, b: seq<byte>, sep: byte, mask: Mask, windowEnd: nat, stop: nat, ghost exact: bool,
                     ghost lo: nat, matches: Mask, stop': nat, log': seq<seq<byte>>)
    returns (ghost lo2: nat, matches2: Mask, stop2: nat, log2: seq<seq<byte>>)
    requires Resolving(b, sep, mask, windowEnd, stop, exact, lo, matches, stop', log') && !IsZero(matches)
    ensures lo2 < lo && stop2 <= stop' && log2 == log' + [b[stop2..stop']]
    ensures Resolving(b, sep, mask, windowEnd, stop, exact, lo2, matches2, stop2, log2)
  {
    var base := windowEnd - |mask|;
    var leading := LeadingZeros(matches);
    var h := |mask| - 1 - leading;
    var offset := windowEnd - leading;
    assert base + h + 1 == offset;
    PendingStep(u, mask, matches, base, lo, h);
    matches2 := ClearMatch(u, matches, h);
    lo2, stop2, log2 := offset - 1, offset, log' + [b[offset..stop']];
    assert Pending(mask, matches2, base, lo2);
    if exact {
      ResolveOne(b, sep, mask, matches, base, lo, stop', log', h, offset);
      assert Progress(b, sep, lo2, stop2, log2);
    }
  }

  /** A finished match loop leaves the cursor in the window and the scan invariant at its bottom. */
  lemma ResolvingDone(b: seq<byte>, sep: byte, mask: Mask, windowEnd: nat, stop: nat, exact: bool,
                      lo: nat, matches: Mask, stop': nat, log': seq<seq<byte>>)
    requires Resolving(b, sep, mask, windowEnd, stop, exact, lo, matches, stop', log') && IsZero(matches)
    ensures windowEnd - |mask| <= stop' <= stop
    ensures exact ==> Progress(b, sep, windowEnd - |mask|, stop', log')
  {
    if exact {
      var base := windowEnd - |mask|;
      PendingDone(b, sep, mask, matches, base, lo);
      ProgressSkipRun(b, sep, base, lo, stop', log');
    }
  }

  /** The bits still to resolve: those of `mask` below window position `lo`. */
  predicate Pending(mask: Mask, matches: Mask, base: nat, lo: nat)
  {
    |matches| == |mask| && forall k :: 0 <= k < |mask| ==> (matches[k] <==> mask[k] && base + k < lo)
  }

  /** Resolving the highest pending bit `h` leaves the bits below it pending. */
  lemma PendingStep(u: Unit, mask: Mask, matches: Mask, base: nat, lo: nat, h: nat)
    requires Pending(mask, matches, base, lo)
    requires h < |matches| && matches[h] && forall k :: h < k < |matches| ==> !matches[k]
    ensures base + h < lo
    ensures Pending(mask, ClearMatch(u, matches, h), base, base + h)
  {
    var c := ClearMatch(u, matches, h);
    forall k | 0 <= k < |mask|
      ensures c[k] <==> mask[k] && base + k < base + h
    {
      if k > h {
        assert !matches[k];
      }
    }
  }

  /** With nothing pending, an exact mask has no separator below `lo` in its window. */
  lemma PendingDone(b: seq<byte>, sep: byte, mask: Mask, matches: Mask, base: nat, lo: nat)
    requires Exact(mask, b, sep, base) && Pending(mask, matches, base, lo) && IsZero(matches)
    requires lo <= base + |mask|
    ensures forall j :: base <= j < lo ==> b[j] != sep
  {
    forall j | base <= j < lo
      ensures b[j] != sep
    {
      assert !matches[j - base];
    }
  }

  /**
   Clearing the resolved bit `h`, the highest set one: x86 clears every bit
   from `h` up with BZHI, NEON masks out bit `h` alone. Either way exactly
   the bits below `h` survive.
   */
  function ClearMatch(u: Unit, m: Mask, h: nat): (r: Mask)
    requires h < |m| && forall k :: h < k < |m| ==> !m[k]
    ensures |r| == |m|
    ensures forall k :: 0 <= k < |m| ==> (r[k] <==> k < h && m[k])
  {
    if u == NeonQuad then ClearBit(m, h) else Bzhi(m, h)
  }

  /** One resolved bit `h`, the highest left, of an exact mask keeps the scan invariant. */
  lemma ResolveOne(b: seq<byte>, sep: byte, mask: Mask, matches: Mask, base: nat, lo: nat, stop: nat,
                   log: seq<seq<byte>>, h: nat, offset: nat)
    requires Exact(mask, b, sep, base)
    requires Progress(b, sep, lo, stop, log) && base <= lo <= base + |mask|
    requires Pending(mask, matches, base, lo)
    requires h < |matches| && matches[h] && forall k :: h < k < |matches| ==> !matches[k]
    requires offset == base + h + 1
    ensures 0 < offset <= lo
    ensures Progress(b, sep, offset - 1, offset, log + [b[offset..stop]])
  {
    forall j | offset <= j < lo
      ensures b[j] != sep
    {
      assert !matches[j - base];
    }
    ProgressSkipRun(b, sep, offset, lo, stop, log);
    ProgressMatch(b, sep, offset, stop, log);
  }

  /**
   The aligned window loop: while at least one step's worth of bytes is left
   below `index`, handles the window `[index - Size, index)` and steps down.
   Every load address stays aligned; the bytes below the final index are left
   to the scalar remainder pass.
   */
  method WindowLoop(u: Unit, b: seq<byte>, sep: byte, p: nat, index: nat, stop: nat, log: seq<seq<byte>>)
    returns (index': nat, stop': nat, log': seq<seq<byte>>)
    requires index <= stop <= |b| && Aligned(p + index, u.Alignment())
    ensures index' <= index && index' < u.Size()
    ensures Aligned(p + index', u.Alignment())
    ensures index' <= stop' <= stop
    ensures Progress(b, sep, index, stop, log) ==> Progress(b, sep, index', stop', log')
  {
    ghost var wasProgress := Progress(b, sep, index, stop, log);
    index', stop', log' := index, stop, log;
    while index' >= u.Size()
      invariant index' <= index && index' <= stop' <= stop
      invariant Aligned(p + index', u.Alignment())
      invariant wasProgress ==> Progress(b, sep, index', stop', log')
      decreases index'
    {
      var windowEnd := index';
      index' := index' - u.Size();
      stop', log' := WindowStep(u, b, sep, p, windowEnd, stop', log');
      AlignedDown(u, p, windowEnd);
    }
  }

  /** One iteration of the window loop: build the window's mask and resolve it. */
  method WindowStep(u: Unit, b: seq<byte>, sep: byte, p: nat, windowEnd: nat, stop: nat, log: seq<seq<byte>>)
    returns (stop': nat, log': seq<seq<byte>>)
    requires u.Size() <= windowEnd <= stop <= |b| && Aligned(p + windowEnd, u.Alignment())
    ensures windowEnd - u.Size() <= stop' <= stop
    ensures Progress(b, sep, windowEnd, stop, log) ==> Progress(b, sep, windowEnd - u.Size(), stop', log')
  {
    var mask := WindowMask(u, b, sep, p, windowEnd);
    stop', log' := ResolveMatches(u, b, sep, windowEnd, mask, stop, log);
  }

  /** The next window end down is aligned like the last one. */
  lemma AlignedDown(u: Unit, p: nat, windowEnd: nat)
    requires Aligned(p + windowEnd, u.Alignment()) && windowEnd >= u.Size()
    ensures Aligned(p + (windowEnd - u.Size()), u.Alignment())
  {
    AlignedStep(u, p + windowEnd);
  }

  /**
   The AVX2 strategy of the newer versions. Buffers of at least
   `3 * 32 - 1` bytes get a scalar pass over the bytes above the highest
   32-aligned address at or below the end, then the window loop; the rest,
   and every shorter buffer, goes through the scalar remainder pass. The
   output is the segment reversal for every buffer, the empty one included.
   */
  method Search256(b: seq<byte>, sep: byte, p: nat, u: Unit) returns (log: seq<seq<byte>>)
    requires u != NeonQuad
    ensures Flatten(log) == Tac(b, sep)
  {
    var len := |b|;
    var stop := len;
    var remaining := len;
    log := [];
    ProgressStart(b, sep);
    if len >= 32 * 3 - 1 {
      var off := AlignOffset(p + len, 32);
      if off != 0 {
        var alignedIndex := len + off - 32;
        stop, log := SlowSearchAndPrint(b, sep, alignedIndex, len, stop, log);
        remaining := alignedIndex;
      }
      remaining, stop, log := WindowLoop(u, b, sep, p, remaining, stop, log);
    }
    if remaining != 0 {
      stop, log := SlowSearchAndPrint(b, sep, 0, remaining, stop, log);
    }
    ProgressFinish(b, sep, stop, log);
    log := log + [b[..stop]];
  }

  /**
   The alignment preflight of `Search256`: for buffers of at least 95 bytes
   the vector region ends at a 32-aligned index strictly inside the buffer
   (or at the end itself when the end is aligned) and holds at least two
   32-byte blocks; it is the highest 32-aligned index at or below the end.
   */
  lemma Preflight256(p: nat, len: nat)
    requires len >= 32 * 3 - 1
    ensures var off := AlignOffset(p + len, 32);
      var remaining := if off != 0 then len + off - 32 else len;
      && (off != 0 ==> 0 < remaining < len)
      && Aligned(p + remaining, 32)
      && remaining >= 64
      && len - remaining < 32
      && remaining == AlignedAtOrBelow(p, len, 32)
  {
  }

  /**
   The NEON strategy. The scalar pass covers the bytes from the highest
   16-aligned index below the last one; four 16-byte windows are then handled
   per step while at least 64 bytes are left. It computes `len - 1`, so the
   buffer must not be empty.
   */
  method Search128(b: seq<byte>, sep: byte, p: nat) returns (log: seq<seq<byte>>)
    requires |b| > 0
    ensures Flatten(log) == Tac(b, sep)
  {
    var stop := |b|;
    var index := stop - 1;
    log := [];
    ProgressStart(b, sep);
    if index >= 64 {
      var alignedIndex := AlignedBelow(p, index, 16);
      stop, log := SlowSearchAndPrint(b, sep, alignedIndex, stop, stop, log);
      index := alignedIndex;
      index, stop, log := WindowLoop(NeonQuad, b, sep, p, index, stop, log);
    } else {
      ProgressSkip(b, sep, |b|, |b|, []);
    }
    if index != 0 {
      stop, log := SlowSearchAndPrint(b, sep, 0, index, stop, log);
    }
    ProgressFinish(b, sep, stop, log);
    log := log + [b[0..stop]];
  }
}
