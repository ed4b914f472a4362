/**
 The reusable library: `reverse_file` over any separator byte, standard input
 memory-mapped on Unix when possible and buffered otherwise, AVX2 with one
 32-byte load per step on 32-bit x86 and two on x86_64, and NEON.
 */
module TacK {
  import opened Spec
  import opened Scan
  import opened Vector
  import opened Io

  /** How a search ends: its writes, or the `len - 1` underflow of the NEON search on empty input. */
  datatype Outcome = Written(log: seq<seq<byte>>) | Underflow

  /**
   `search_auto`: AVX2 when AVX2, LZCNT and BMI2 are all detected on x86
   (one load per step on 32-bit x86, two on x86_64), otherwise NEON when
   detected on AArch64, otherwise the naive search.
   */
  function Choose(f: Platform): (s: Strategy)
    ensures s.Avx2? <==> f.IsX86() && f.avx2 && f.lzcnt && f.bmi2
    ensures s.Avx2? ==> (s.unit == Avx2Single <==> f.arch == X86) && s.unit != NeonQuad
    ensures s == Neon <==> !(f.IsX86() && f.avx2 && f.lzcnt && f.bmi2) && f.arch == AArch64 && f.neon
  {
    if f.IsX86() && f.avx2 && f.lzcnt && f.bmi2 then Avx2(if f.arch == X86 then Avx2Single else Avx2Pair)
    else if f.arch == AArch64 && f.neon then Neon
    else Scalar
  }

  /**
   The NEON search as this library calls it: on an empty buffer the
   computation of the last index underflows before anything is written.
   */
  method Search128(b: seq<byte>, sep: byte, p: nat) returns (o: Outcome)
    ensures o == Underflow <==> |b| == 0
    ensures o.Written? ==> Flatten(o.log) == Tac(b, sep)
  {
    if |b| == 0 {
      return Underflow;
    }
    var log := Vector.Search128(b, sep, p);
    return Written(log);
  }

  /** Runs the chosen search; only the NEON search on an empty buffer fails. */
  method SearchAuto(b: seq<byte>, sep: byte, f: Platform, p: nat) returns (s: Strategy, o: Outcome)
    ensures s == Choose(f)
    ensures o == Underflow <==> |b| == 0 && s == Neon
    ensures o.Written? ==> Flatten(o.log) == Tac(b, sep)
  {
    s := Choose(f);
    match s
    case Avx2(u) =>
      var log := Search256(b, sep, p, u);
      o := Written(log);
    case Neon =>
      o := Search128(b, sep, p);
    case Scalar =>
      var log := Scan.Search(b, sep);
      o := Written(log);
  }

  /**
   The bytes a path yields: standard input memory-mapped when that works on
   Unix, buffered otherwise, through a spill file opened for reading and
   writing.
   */
  function ViewOf(src: Input, unix: bool): Result<seq<byte>>
  {
    match src
    case Stdin(m, s, spill) => if unix && m.Success? then m else Buffered(s, ReadWrite, spill)
    case File(m) => m
  }

  /** Acquires the view of a path. */
  method Acquire(src: Input, unix: bool) returns (view: Result<seq<byte>>)
    ensures view == ViewOf(src, unix)
  {
    match src {
      case Stdin(m, s, spill) =>
        if unix && m.Success? {
          view := m;
        } else {
          var spilled;
          view, spilled := BufferStdin(s, ReadWrite, spill);
        }
      case File(m) =>
        view := m;
    }
  }

  /**
   `reverse_file` as written: the view goes to the dispatcher with no check
   for emptiness, so an empty input on a NEON machine underflows.
   */
  method ReverseFileAsWritten(src: Input, unix: bool, sep: byte, f: Platform, p: nat)
    returns (r: Result<Outcome>)
    ensures r.Success? <==> ViewOf(src, unix).Success?
    ensures r.Success? ==> (r.value == Underflow <==> |ViewOf(src, unix).value| == 0 && Choose(f) == Neon)
    ensures r.Success? && r.value.Written? ==> Flatten(r.value.log) == Tac(ViewOf(src, unix).value, sep)
  {
    var view := Acquire(src, unix);
    if view.Failure? {
      return Failure(view.error);
    }
    var _, o := SearchAuto(view.value, sep, f, p);
    return Success(o);
  }

  /**
   `reverse_file` with the guard of the newer front end: an empty view writes
   nothing. Every acquired view, on every platform, gets its reversal.
   */
  method ReverseFile(src: Input, unix: bool, sep: byte, f: Platform, p: nat)
    returns (r: Result<seq<seq<byte>>>)
    ensures r.Success? <==> ViewOf(src, unix).Success?
    ensures r.Success? ==> Flatten(r.value) == Tac(ViewOf(src, unix).value, sep)
  {
    var view := Acquire(src, unix);
    if view.Failure? {
      return Failure(view.error);
    }
    if |view.value| == 0 {
      return Success([]);
    }
    var _, o := SearchAuto(view.value, sep, f, p);
    return Success(o.log);
  }

  /**
   What the AVX2 test compares, for any separator and either x86 width: the
   naive search and the AVX2 search write the same bytes.
   */
  method SimdMatchesScalar(b: seq<byte>, sep: byte, p: nat, u: Unit) returns (slow: seq<seq<byte>>, simd: seq<seq<byte>>)
    requires u != NeonQuad
    ensures Flatten(simd) == Flatten(slow)
  {
    slow := Scan.Search(b, sep);
    simd := Search256(b, sep, p, u);
  }
}
