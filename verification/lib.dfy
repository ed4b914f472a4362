/**
 The library front end of the newer version: `reverse_file` with standard
 input memory-mapped on Unix and buffered elsewhere, an empty-input guard in
 front of the dispatcher, and dispatch on AVX2 with LZCNT and BMI2, or NEON.
 The separator is always the newline.
 */
module Lib {
  import opened Spec
  import opened Scan
  import opened Vector
  import opened Io

  /**
   `search_auto`: AVX2 when AVX2, LZCNT and BMI2 are all detected on x86,
   otherwise NEON when detected on AArch64, otherwise the naive search.
   */
  function Choose(f: Platform): (s: Strategy)
    ensures s == Avx2(Avx2Pair) <==> f.IsX86() && f.avx2 && f.lzcnt && f.bmi2
    ensures s == Neon <==> !(f.IsX86() && f.avx2 && f.lzcnt && f.bmi2) && f.arch == AArch64 && f.neon
    ensures s == Scalar || s == Avx2(Avx2Pair) || s == Neon
  {
    if f.IsX86() && f.avx2 && f.lzcnt && f.bmi2 then Avx2(Avx2Pair)
    else if f.arch == AArch64 && f.neon then Neon
    else Scalar
  }

  /** Runs the chosen search on a non-empty buffer at base address `p`; every choice writes the reversal. */
  method SearchAuto(b: seq<byte>, f: Platform, p: nat) returns (s: Strategy, log: seq<seq<byte>>)
    requires b != []
    ensures s == Choose(f)
    ensures Flatten(log) == Tac(b, NEWLINE)
  {
    s := Choose(f);
    match s
    case Avx2(u) => log := Search256(b, NEWLINE, p, u);
    case Neon => log := Search128(b, NEWLINE, p);
    case Scalar => log := Scan.Search(b, NEWLINE);
  }

  /**
   The bytes a path yields: on Unix standard input is memory-mapped and a
   failure to map it is the result (the buffered path is not reached);
   elsewhere it is buffered, through a spill file opened for reading and
   writing.
   */
  function ViewOf(src: Input, unix: bool): Result<seq<byte>>
  {
    match src
    case Stdin(m, s, spill) => if unix then m else Buffered(s, ReadWrite, spill)
    case File(m) => m
  }

  /**
   `reverse_file`: acquires the view, writes nothing for an empty one and the
   reversal of any other, or fails with the acquisition error.
   */
  method ReverseFile(src: Input, unix: bool, f: Platform, p: nat) returns (r: Result<seq<seq<byte>>>)
    ensures r.Success? <==> ViewOf(src, unix).Success?
    ensures r.Success? ==> Flatten(r.value) == Tac(ViewOf(src, unix).value, NEWLINE)
    ensures r.Success? && |ViewOf(src, unix).value| == 0 ==> r.value == []
  {
    var view;
    match src {
      case Stdin(m, s, spill) =>
        if unix {
          view := m;
        } else {
          var spilled;
          view, spilled := BufferStdin(s, ReadWrite, spill);
        }
      case File(m) =>
        view := m;
    }
    if view.Failure? {
      return Failure(view.error);
    }
    if |view.value| == 0 {
      return Success([]);
    }
    var _, log := SearchAuto(view.value, f, p);
    return Success(log);
  }

  /**
   What the AVX2 test compares: the naive search and the AVX2 search write
   the same bytes for every buffer and every base address, the empty buffer
   included.
   */
  method SimdMatchesScalar(b: seq<byte>, p: nat) returns (slow: seq<seq<byte>>, simd: seq<seq<byte>>)
    ensures Flatten(simd) == Flatten(slow)
  {
    slow := Scan.Search(b, NEWLINE);
    simd := Search256(b, NEWLINE, p, Avx2Pair);
  }
}
