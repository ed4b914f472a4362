/**
 The original command-line front end: switch parsing, the per-file driver,
 its own scalar and AVX2 searches, its dispatcher, and its standard-input
 buffering. The separator is always the newline.
 */
module Cli {
  import opened Spec
  import opened Scan
  import opened Masks
  import opened Align
  import opened Vector
  import opened Io

  // ----- Searches -----

  /**
   The naive search over a signed cursor: walks the index from the last byte
   down to -1, and treats -1 like a separator in front of the buffer, so the
   prefix is written by the same branch as every line. One write per newline
   plus the final one; the empty buffer is handled too.
   */
  method Search(b: seq<byte>) returns (log: seq<seq<byte>>)
    ensures Flatten(log) == Tac(b, NEWLINE)
    ensures |log| == Occurrences(b, NEWLINE) + 1
  {
    var lastPrinted: int := |b|;
    var index: int := lastPrinted - 1;
    log := [];
    ProgressStart(b, NEWLINE);
    assert b[|b|..] == [];
    while index > -2
      invariant NaiveState(b, index, lastPrinted, log)
      decreases index + 2
    {
      NaiveStep(b, index, lastPrinted, log);
      if index == -1 || b[index] == NEWLINE {
        log := log + [b[index + 1..lastPrinted]];
        lastPrinted := index + 1;
      }
      index := index - 1;
    }
  }

  /**
   The state of the naive search's loop: above the cursor the scan invariant
   holds with one write per newline seen, and past -1 the output is complete.
   */
  predicate NaiveState(b: seq<byte>, index: int, lastPrinted: int, log: seq<seq<byte>>)
  {
    && -2 <= index < |b|
    && (index >= -1 ==> Progress(b, NEWLINE, index + 1, lastPrinted, log))
    && (index >= -1 ==> |log| == Occurrences(b[index + 1..], NEWLINE))
    && (index == -2 ==> Flatten(log) == Tac(b, NEWLINE) && |log| == Occurrences(b, NEWLINE) + 1)
  }

  /** One turn of the naive loop, where -1 counts as a newline in front of the buffer. */
  lemma NaiveStep(b: seq<byte>, index: int, lastPrinted: int, log: seq<seq<byte>>)
    requires NaiveState(b, index, lastPrinted, log) && index > -2
    ensures (index == -1 || b[index] == NEWLINE) ==>
      NaiveState(b, index - 1, index + 1, log + [b[index + 1..lastPrinted]])
    ensures !(index == -1 || b[index] == NEWLINE) ==> NaiveState(b, index - 1, lastPrinted, log)
  {
    if index == -1 {
      ProgressFinish(b, NEWLINE, lastPrinted, log);
      assert b[0..lastPrinted] == b[..lastPrinted];
      assert b[0..] == b;
    } else {
      OccurrencesCons(b, NEWLINE, index, |b|);
      assert b[index..] == b[index..|b|] && b[index + 1..] == b[index + 1..|b|];
      if b[index] == NEWLINE {
        ProgressMatch(b, NEWLINE, index + 1, lastPrinted, log);
      } else {
        ProgressSkip(b, NEWLINE, index + 1, lastPrinted, log);
      }
    }
  }

  /**
   The AVX2 search of this front end. When the last index is at least 32,
   the scalar pass covers the bytes from the highest 32-aligned index below
   the last one, and the window loop handles 64 bytes per step. The window
   mask here is the zero-extended join; see `JoinSignExtended` for the join
   as written. It computes `len - 1`, so the buffer must not be empty.
   */
  method Search256(b: seq<byte>, p: nat) returns (log: seq<seq<byte>>)
    requires b != []
    ensures Flatten(log) == Tac(b, NEWLINE)
  {
    var stop := |b|;
    var index := stop - 1;
    log := [];
    ProgressStart(b, NEWLINE);
    if index >= 32 {
      var alignedIndex := AlignedBelow(p, index, 32);
      stop, log := SlowSearchAndPrint(b, NEWLINE, alignedIndex, stop, stop, log);
      index := alignedIndex;
      index, stop, log := WindowLoop(Avx2Pair, b, NEWLINE, p, index, stop, log);
    } else {
      ProgressSkip(b, NEWLINE, |b|, |b|, []);
    }
    if index != 0 {
      stop, log := SlowSearchAndPrint(b, NEWLINE, 0, index, stop, log);
    }
    ProgressFinish(b, NEWLINE, stop, log);
    log := log + [b[0..stop]];
  }

  // ----- The preflight debug assertion -----

  /**
   The first debug assertion of the AVX2 preflight, as written: the aligned
   index is at most the last index, below the length, and positive.
   */
  predicate PreflightAssertion(p: nat, len: nat)
    requires len >= 33
  {
    var index := len - 1;
    var alignedIndex := AlignedBelow(p, index, 32);
    alignedIndex <= index && alignedIndex < len && alignedIndex > 0
  }

  /**
   The assertion as written fails for exactly one shape of input: a 33-byte
   buffer that starts on a 32-byte boundary (a memory map always does). Then
   the aligned index is 0, a valid start for the vector region.
   */
  lemma PreflightAssertionFails(p: nat, len: nat)
    requires len >= 33
    ensures !PreflightAssertion(p, len) <==> (len == 33 && p % 32 == 0)
  {
    var ai := AlignedBelow(p, len - 1, 32);
    if len == 33 && p % 32 == 0 {
      NoneAbove(p, p + 32, 32);
      assert ai == 0;
    }
  }

  /**
   The preflight with the positivity conjunct dropped: the aligned index lies
   in the buffer, below the last index and on a 32-byte boundary, for every
   buffer with a last index of at least 32 and every base address.
   */
  predicate PreflightCorrected(p: nat, len: nat)
    requires len >= 33
  {
    var index := len - 1;
    var alignedIndex := AlignedBelow(p, index, 32);
    alignedIndex <= index && alignedIndex < len && Aligned(p + alignedIndex, 32)
  }

  /** The corrected preflight holds on every input the branch admits. */
  lemma PreflightCorrectedHolds(p: nat, len: nat)
    requires len >= 33
    ensures PreflightCorrected(p, len)
  {
  }

  // ----- The mask join -----

  /**
   `(hi as u64) << 32 | lo as u64` with both movemask results of type `i32`:
   the cast of `lo` sign-extends, so when bit 31 of `lo` is set every bit of
   the upper half comes out set.
   */
  function JoinSignExtended(hi: Mask, lo: Mask): (m: Mask)
    requires |hi| == 32 && |lo| == 32
    ensures |m| == 64
    ensures forall k :: 0 <= k < 32 ==> m[k] == lo[k] && (m[32 + k] <==> hi[k] || lo[31])
  {
    lo + seq(32, k requires 0 <= k < 32 => hi[k] || lo[31])
  }

  /**
   The sign-extended join agrees with the zero-extended one exactly when
   bit 31 of the low half is clear or the high half is already full.
   */
  lemma SignExtensionAgrees(hi: Mask, lo: Mask)
    requires |hi| == 32 && |lo| == 32
    ensures JoinSignExtended(hi, lo) == JoinZeroExtended(hi, lo) <==> (!lo[31] || forall k :: 0 <= k < 32 ==> hi[k])
  {
    var s, z := JoinSignExtended(hi, lo), JoinZeroExtended(hi, lo);
    if !lo[31] || forall k :: 0 <= k < 32 ==> hi[k] {
      assert forall k :: 0 <= k < 64 ==> s[k] == z[k] by {
        forall k | 0 <= k < 64
          ensures s[k] == z[k]
        {
          if k >= 32 {
            assert s[32 + (k - 32)] == z[32 + (k - 32)];
          }
        }
      }
    } else {
      var j :| 0 <= j < 32 && !hi[j];
      assert s[32 + j] != z[32 + j];
    }
  }

  /**
   A window whose only newline in the lower 32 bytes is at the top of that
   half, and whose last byte is not a newline: the sign-extended mask claims a
   newline at the last byte (its highest bit is set), so the first write of
   the window would split a line that has no break there.
   */
  lemma SignExtensionSplitsLine(b: seq<byte>, windowEnd: nat)
    requires 64 <= windowEnd <= |b|
    requires b[windowEnd - 33] == NEWLINE && b[windowEnd - 1] != NEWLINE
    ensures var hi := Compare(b, NEWLINE, windowEnd - 32, 32);
      var lo := Compare(b, NEWLINE, windowEnd - 64, 32);
      var m := JoinSignExtended(hi, lo);
      LeadingZeros(m) == 0 && !Exact(m, b, NEWLINE, windowEnd - 64)
  {
    var hi := Compare(b, NEWLINE, windowEnd - 32, 32);
    var lo := Compare(b, NEWLINE, windowEnd - 64, 32);
    var m := JoinSignExtended(hi, lo);
    assert lo[31];
    assert m[63];
  }

  // ----- Dispatch and the per-file driver -----

  /**
   `search_auto` of this front end: AVX2 on x86 when detected, otherwise
   NEON on AArch64 in a nightly build (without a runtime probe), otherwise
   the naive search.
   */
  function Choose(f: Platform): (s: Strategy)
    ensures s == Avx2(Avx2Pair) <==> f.IsX86() && f.avx2
    ensures s == Neon <==> !(f.IsX86() && f.avx2) && f.arch == AArch64 && f.nightly
    ensures s == Scalar || s == Avx2(Avx2Pair) || s == Neon
  {
    if f.IsX86() && f.avx2 then Avx2(Avx2Pair)
    else if f.arch == AArch64 && f.nightly then Neon
    else Scalar
  }

  /**
   `search256` is compiled for AVX2, LZCNT and BMI2, but the dispatcher only
   asks for AVX2: on a processor without LZCNT or BMI2 the chosen search runs
   instructions the processor lacks.
   */
  predicate MissingFeature(f: Platform)
  {
    Choose(f).Avx2? && !(f.lzcnt && f.bmi2)
  }

  /**
   How a dispatched search ends: its writes, or undefined behaviour when it
   runs instructions the processor lacks (BZHI faults without BMI2, and
   processors without LZCNT read it as BSR).
   */
  datatype Searched = Written(log: seq<seq<byte>>) | Undefined

  /**
   Runs the chosen search on a non-empty buffer at base address `p`. It is
   undefined exactly when a feature is missing; otherwise every choice writes
   the reversal.
   */
  method SearchAuto(b: seq<byte>, f: Platform, p: nat) returns (s: Strategy, o: Searched)
    requires b != []
    ensures s == Choose(f)
    ensures o == Undefined <==> MissingFeature(f)
    ensures o.Written? ==> Flatten(o.log) == Tac(b, NEWLINE)
  {
    s := Choose(f);
    match s
    case Avx2(_) =>
      if !(f.lzcnt && f.bmi2) {
        return s, Undefined;
      }
      var log := Search256(b, p);
      o := Written(log);
    case Neon =>
      var log := Search128(b, NEWLINE, p);
      o := Written(log);
    case Scalar =>
      var log := Search(b);
      o := Written(log);
  }

  /** An x86_64 processor with AVX2 but neither LZCNT nor BMI2 (a virtual machine may mask them) gets the AVX2 search. */
  lemma Avx2OnlyUndefined()
    ensures var f := Platform(X86_64, true, false, false, false, false);
      Choose(f) == Avx2(Avx2Pair) && MissingFeature(f)
  {
  }

  /**
   The output step of `reverse_file`: an empty view writes nothing (which
   keeps the `len - 1` of the searches from underflowing and skips the
   dispatcher), any other view is searched. The bytes written are the
   reversal of the view.
   */
  method Reverse(view: seq<byte>, f: Platform, p: nat) returns (o: Searched)
    ensures view == [] ==> o == Written([])
    ensures o == Undefined <==> view != [] && MissingFeature(f)
    ensures o.Written? ==> Flatten(o.log) == Tac(view, NEWLINE)
  {
    if |view| == 0 {
      o := Written([]);
    } else {
      var _, r := SearchAuto(view, f, p);
      o := r;
    }
  }

  /** Where one file argument's bytes come from. */
  datatype Source =
    | Stdin(stream: Stream, spill: Spill)     // the argument `-`
    | File(mapped: Result<seq<byte>>)        // `File::open` then `Mmap::map`, or the error of either

  /** The bytes a source yields: standard input goes through the spill file opened for reading and writing. */
  function ViewOf(src: Source): Result<seq<byte>>
  {
    match src
    case Stdin(s, spill) => Buffered(s, ReadWrite, spill)
    case File(r) => r
  }

  /**
   `reverse_file`: acquires the view and writes its reversal, or fails with
   the acquisition error. Standard input goes through the buffering that keeps
   the whole stream (`Io.BufferStdin`), not the truncating loop of this file
   (`BufferStdin` below).
   */
  method ReverseFile(src: Source, f: Platform, p: nat) returns (r: Result<Searched>)
    ensures r.Success? <==> ViewOf(src).Success?
    ensures r.Success? ==> (r.value == Undefined <==> ViewOf(src).value != [] && MissingFeature(f))
    ensures r.Success? && r.value.Written? ==> Flatten(r.value.log) == Tac(ViewOf(src).value, NEWLINE)
  {
    var view;
    match src {
      case Stdin(s, spill) =>
        var spilled;
        view, spilled := Io.BufferStdin(s, ReadWrite, spill);
      case File(m) =>
        view := m;
    }
    if view.Failure? {
      return Failure(view.error);
    }
    var o := Reverse(view.value, f, p);
    return Success(o);
  }

  /**
   The file loop of `main`: reverses each source in order and stops at the
   first failure with exit code -1. On exit code 0 every source was written;
   otherwise the first `|written|` were and the next one failed. On a
   processor missing a feature the run is undefined from the first non-empty
   source on (`undefined`), so only empty sources are ever written there.
   */
  method ReverseAll(sources: seq<Source>, f: Platform, p: nat) returns (written: seq<seq<seq<byte>>>, code: int, undefined: bool)
    ensures |written| <= |sources|
    ensures forall i :: 0 <= i < |written| ==> ViewOf(sources[i]).Success?
    ensures forall i :: 0 <= i < |written| ==> Flatten(written[i]) == Tac(ViewOf(sources[i]).value, NEWLINE)
    ensures MissingFeature(f) ==> forall i :: 0 <= i < |written| ==> ViewOf(sources[i]).value == []
    ensures undefined ==> MissingFeature(f) && |written| < |sources|
    ensures undefined ==> ViewOf(sources[|written|]).Success? && ViewOf(sources[|written|]).value != []
    ensures !undefined ==> (code == 0 <==> |written| == |sources|)
    ensures !undefined && code != 0 ==> code == -1 && ViewOf(sources[|written|]).Failure?
  {
    written := [];
    var i := 0;
    while i < |sources|
      invariant i == |written| <= |sources|
      invariant forall j :: 0 <= j < i ==> ViewOf(sources[j]).Success?
      invariant forall j :: 0 <= j < i ==> Flatten(written[j]) == Tac(ViewOf(sources[j]).value, NEWLINE)
      invariant MissingFeature(f) ==> forall j :: 0 <= j < i ==> ViewOf(sources[j]).value == []
    {
      var r := ReverseFile(sources[i], f, p);
      if r.Failure? {
        return written, -1, false;
      }
      if r.value == Undefined {
        return written, 0, true;
      }
      written := written + [r.value.log];
      i := i + 1;
    }
    code, undefined := 0, false;
  }

  // ----- Switch parsing -----

  /** What `main` does with its arguments: reverse these files, or exit with a code. */
  datatype Outcome = Run(files: seq<string>, forceFlush: bool) | Exit(code: int)

  /** An argument that `main` treats as a switch: it starts with `-` and is not `-` itself. */
  predicate IsSwitch(a: string)
  {
    |a| > 0 && a[0] == '-' && a != "-"
  }

  /** The switches that print help or the version and exit successfully. */
  predicate IsInfo(a: string)
  {
    a == "-h" || a == "--help" || a == "-v" || a == "--version"
  }

  /** The argument loop of `main`, over the arguments after the program name. */
  function Parse(args: seq<string>, files: seq<string>, forceFlush: bool, skipSwitches: bool): Outcome
    decreases |args|
  {
    if |args| == 0 then Run(files, forceFlush)
    else
      var a := args[0];
      if !skipSwitches && IsSwitch(a) then
        if IsInfo(a) then Exit(0)
        else if a == "--line-buffered" then Parse(args[1..], files, true, skipSwitches)
        else if a == "--" then Parse(args[1..], files, forceFlush, true)
        else Exit(-1)
      else Parse(args[1..], files + [a], forceFlush, skipSwitches)
  }

  /**
   `main`'s reading of `std::env::args()`: the program name is skipped, and
   with no file named, standard input (`-`) is read.
   */
  function ParseArgs(argv: seq<string>): (r: Outcome)
    ensures r.Run? ==> |r.files| > 0
    ensures r.Exit? ==> r.code == 0 || r.code == -1
    ensures r == Settle(Reference(if |argv| == 0 then [] else argv[1..]))
  {
    var args := if |argv| == 0 then [] else argv[1..];
    ParseMatchesReference(args, [], false);
    match Parse(args, [], false, false)
    case Run(fs, ff) => Run(if |fs| == 0 then ["-"] else fs, ff)
    case Exit(c) => Exit(c)
  }

  /** Standard input as the default file. */
  function Settle(o: Outcome): Outcome
  {
    match o
    case Run(fs, ff) => Run(if |fs| == 0 then ["-"] else fs, ff)
    case Exit(c) => Exit(c)
  }

  /** Position of the first `--`, or the length when there is none. */
  function DashDash(args: seq<string>): (k: nat)
    ensures k <= |args|
    ensures k < |args| ==> args[k] == "--"
    ensures forall j :: 0 <= j < k ==> args[j] != "--"
  {
    if |args| == 0 || args[0] == "--" then 0 else 1 + DashDash(args[1..])
  }

  /** The arguments that are not switches. */
  function Positional(args: seq<string>): seq<string>
  {
    if |args| == 0 then [] else (if IsSwitch(args[0]) then [] else [args[0]]) + Positional(args[1..])
  }

  /** The first switch that ends the parse (anything but `--line-buffered`), if any. */
  function FirstDecisive(args: seq<string>): Option<string>
  {
    if |args| == 0 then None
    else if IsSwitch(args[0]) && args[0] != "--line-buffered" then Some(args[0])
    else FirstDecisive(args[1..])
  }

  /**
   The argument rules stated directly: up to the first `--`, the first switch
   other than `--line-buffered` decides the exit (0 for help and version, -1
   for anything else); without one, the files are the non-switch arguments
   before `--` followed by every argument after it, and output is flushed per
   line iff `--line-buffered` appears before `--`.
   */
  function Reference(args: seq<string>): Outcome
  {
    var k := DashDash(args);
    var before := args[..k];
    var after := if k < |args| then args[k + 1..] else [];
    match FirstDecisive(before)
    case Some(a) => Exit(if IsInfo(a) then 0 else -1)
    case None => Run(Positional(before) + after, "--line-buffered" in before)
  }

  /** Files and the flag already collected in front of an outcome. */
  function Extend(o: Outcome, files: seq<string>, forceFlush: bool): Outcome
  {
    match o
    case Run(fs, ff) => Run(files + fs, forceFlush || ff)
    case Exit(c) => Exit(c)
  }

  /** After `--` every argument is a file. */
  lemma {:induction false} ParseAfterDashDash(args: seq<string>, files: seq<string>, forceFlush: bool)
    ensures Parse(args, files, forceFlush, true) == Run(files + args, forceFlush)
    decreases |args|
  {
    if |args| == 0 {
      assert files + args == files;
    } else {
      ParseAfterDashDash(args[1..], files + [args[0]], forceFlush);
      assert files + [args[0]] + args[1..] == files + args;
    }
  }

  /** The argument loop agrees with the direct statement of the rules. */
  lemma {:induction false} ParseMatchesReference(args: seq<string>, files: seq<string>, forceFlush: bool)
    ensures Parse(args, files, forceFlush, false) == Extend(Reference(args), files, forceFlush)
    decreases |args|
  {
    if |args| == 0 {
      assert files + [] == files;
    } else {
      var a := args[0];
      if a == "--" {
        ReferenceDashDash(args);
        ParseAfterDashDash(args[1..], files, forceFlush);
      } else if !IsSwitch(a) {
        ReferenceFile(args);
        ParseMatchesReference(args[1..], files + [a], forceFlush);
        ExtendTwice(Reference(args[1..]), [a], false, files, forceFlush);
      } else if a == "--line-buffered" {
        ReferenceLineBuffered(args);
        ParseMatchesReference(args[1..], files, true);
        ExtendTwice(Reference(args[1..]), [], true, files, forceFlush);
        assert files + [] == files;
      } else {
        ReferenceDecisive(args);
      }
    }
  }

  /** Extending twice is extending once with both. */
  lemma ExtendTwice(o: Outcome, f1: seq<string>, ff1: bool, f2: seq<string>, ff2: bool)
    ensures Extend(Extend(o, f1, ff1), f2, ff2) == Extend(o, f2 + f1, ff2 || ff1)
  {
    if o.Run? {
      assert f2 + (f1 + o.files) == (f2 + f1) + o.files;
    }
  }

  /** The direct statement of the rules at a leading `--`: everything after it is a file. */
  lemma ReferenceDashDash(args: seq<string>)
    requires |args| > 0 && args[0] == "--"
    ensures Reference(args) == Run(args[1..], false)
  {
    assert DashDash(args) == 0;
    assert args[..0] == [];
    assert [] + args[1..] == args[1..];
  }

  /** The direct statement of the rules at a leading file name: it heads the files. */
  lemma ReferenceFile(args: seq<string>)
    requires |args| > 0 && !IsSwitch(args[0])
    ensures Reference(args) == Extend(Reference(args[1..]), [args[0]], false)
  {
    var a := args[0];
    BeforeCons(args);
    var k, k' := DashDash(args), DashDash(args[1..]);
    var before, before' := args[..k], args[1..][..k'];
    var after := if k < |args| then args[k + 1..] else [];
    var after' := if k' < |args[1..]| then args[1..][k' + 1..] else [];
    assert after == after';
    assert before[1..] == before';
    assert FirstDecisive(before) == FirstDecisive(before');
    assert Positional(before) == [a] + Positional(before');
    assert [a] + (Positional(before') + after') == Positional(before) + after;
  }

  /** The direct statement of the rules at a leading `--line-buffered`: it sets the flag. */
  lemma ReferenceLineBuffered(args: seq<string>)
    requires |args| > 0 && args[0] == "--line-buffered"
    ensures Reference(args) == Extend(Reference(args[1..]), [], true)
  {
    BeforeCons(args);
    var k, k' := DashDash(args), DashDash(args[1..]);
    var before, before' := args[..k], args[1..][..k'];
    var after := if k < |args| then args[k + 1..] else [];
    var after' := if k' < |args[1..]| then args[1..][k' + 1..] else [];
    assert after == after';
    assert before[1..] == before';
    assert FirstDecisive(before) == FirstDecisive(before');
    assert Positional(before) == Positional(before');
    assert [] + (Positional(before') + after') == Positional(before) + after;
  }

  /** The direct statement of the rules at any other leading switch: it decides the exit. */
  lemma ReferenceDecisive(args: seq<string>)
    requires |args| > 0 && IsSwitch(args[0]) && args[0] != "--" && args[0] != "--line-buffered"
    ensures Reference(args) == Exit(if IsInfo(args[0]) then 0 else -1)
  {
    BeforeCons(args);
    assert args[..DashDash(args)][0] == args[0];
  }

  /** Before the first `--`, dropping a leading argument that is not `--`. */
  lemma BeforeCons(args: seq<string>)
    requires |args| > 0 && args[0] != "--"
    ensures DashDash(args) == DashDash(args[1..]) + 1
    ensures args[..DashDash(args)] == [args[0]] + args[1..][..DashDash(args[1..])]
  {
    var k' := DashDash(args[1..]);
    assert DashDash(args) == k' + 1;
    SliceCons(args, k');
  }

  /** The first `k + 1` elements are the head followed by the first `k` of the tail. */
  lemma SliceCons<T>(s: seq<T>, k: nat)
    requires k < |s|
    ensures s[..k + 1] == [s[0]] + s[1..][..k]
  {
    assert s[1..][..k] == s[1..k + 1];
  }

  // ----- Standard input as written -----

  /**
   The standard-input loop of this file. Reads fill a 4 MiB buffer; once it
   is full its contents go to a temporary file, but the next read is then
   into the empty rest of the buffer: it returns nothing and ends the loop,
   or fails when std's refill of its own buffer fails. Then the file is
   mapped. The spill file is opened with `File::create`, so as
   written `access` is `WriteOnly`; with `ReadWrite` the loop's own loss
   shows. The view holds at most the first 4 MiB of the stream.
   */
  method BufferStdin(s: Stream, access: Access, spill: Spill) returns (view: Result<seq<byte>>, spilled: bool)
    ensures spilled <==> Reaches(s)
    ensures !spilled ==> view == ContentsUpTo(s, MAX_BUF_SIZE)
    ensures spilled ==> view == AfterSpill(access, spill,
      if BrokenAfter(s, MAX_BUF_SIZE) then Failure(ReadFailed) else ContentsUpTo(s, MAX_BUF_SIZE))
    ensures view.Success? ==> view == ContentsUpTo(s, MAX_BUF_SIZE)
    ensures view.Success? ==> |view.value| <= MAX_BUF_SIZE && (spilled <==> |view.value| == MAX_BUF_SIZE)
  {
    var buf: seq<byte> := seq(MAX_BUF_SIZE, _ => 0);
    var total: nat := 0;
    var rest := s;
    var file: Option<seq<byte>> := None;
    PrependNothing(ContentsUpTo(s, MAX_BUF_SIZE));
    while true
      invariant |buf| == MAX_BUF_SIZE && total <= MAX_BUF_SIZE
      invariant file.None? ==> total < MAX_BUF_SIZE
      invariant file.Some? ==> total == MAX_BUF_SIZE && file.value == buf && spill.created.Success?
      invariant Prepend(buf[..total], ContentsUpTo(rest, MAX_BUF_SIZE - total)) == ContentsUpTo(s, MAX_BUF_SIZE)
      invariant BrokenAfter(rest, MAX_BUF_SIZE - total) == BrokenAfter(s, MAX_BUF_SIZE)
      decreases Size(rest), MAX_BUF_SIZE - total
    {
      var read := ReadAtMost(rest, MAX_BUF_SIZE - total);
      if read.got.Failure? {
        return Failure(read.got.error), file.Some?;
      }
      var d := read.got.value;
      if |d| == 0 {
        break;
      }
      ghost var before := buf[..total];
      ReadUpTo(rest, MAX_BUF_SIZE - total, MAX_BUF_SIZE - total);
      ReadKeepsBrokenAfter(rest, MAX_BUF_SIZE - total, MAX_BUF_SIZE - total);
      PrependTwice(before, d, ContentsUpTo(read.rest, MAX_BUF_SIZE - total - |d|));
      buf := buf[..total] + d + buf[total + |d|..];
      assert buf[..total + |d|] == before + d;
      total := total + |d|;
      rest := read.rest;
      if file.None? {
        if total >= MAX_BUF_SIZE {
          if spill.created.Failure? {
            return Failure(spill.created.error), true;
          }
          assert buf[0..total] == buf;
          file := Some(buf[0..total]);
        }
      } else {
        assert false;
      }
    }
    ghost var tail := ContentsUpTo(rest, MAX_BUF_SIZE - total);
    assert tail == Success([]);
    assert buf[..total] + [] == buf[..total];
    match file {
      case None =>
        assert buf[0..total] == buf[..total];
        view, spilled := Success(buf[0..total]), false;
      case Some(temp) =>
        assert buf[..total] == buf;
        assert ContentsUpTo(s, MAX_BUF_SIZE) == Success(temp);
        var m := MapHandle(access, spill.mapped);
        if m.Failure? {
          return Failure(m.error), true;
        }
        view, spilled := Success(temp), true;
    }
  }

  /**
   A stream that breaks right after its first 4 MiB: the loop above fills the
   buffer and spills, and the read into the empty rest of the buffer then
   meets the error, so the loop ends in it.
   */
  lemma RefillAfterSpillFails(d: seq<byte>)
    requires |d| == MAX_BUF_SIZE
    ensures Reaches([Data(d), Broken]) && BrokenAfter([Data(d), Broken], MAX_BUF_SIZE)
  {
  }

  /**
   The loop above keeps exactly the first 4 MiB of any stream that holds
   more: a successful read of the whole stream is cut short.
   */
  lemma StdinTruncates(s: Stream)
    requires Contents(s).Success? && |Contents(s).value| > MAX_BUF_SIZE
    ensures ContentsUpTo(s, MAX_BUF_SIZE) == Success(Contents(s).value[..MAX_BUF_SIZE])
    ensures ContentsUpTo(s, MAX_BUF_SIZE) != Contents(s)
  {
    ContentsUpToPrefix(s, MAX_BUF_SIZE);
  }

  /** Whenever the stream holds at most 4 MiB, the loop above keeps all of it. */
  lemma StdinKeepsShortInput(s: Stream)
    requires Contents(s).Success? && |Contents(s).value| <= MAX_BUF_SIZE
    ensures ContentsUpTo(s, MAX_BUF_SIZE) == Contents(s)
  {
    ContentsUpToPrefix(s, MAX_BUF_SIZE);
  }

  /** A single chunk one byte longer than the buffer is enough to lose its last byte. */
  lemma StdinTruncationExample(x: byte)
    ensures var s := [Data(seq(MAX_BUF_SIZE + 1, _ => x))];
      Contents(s) == Success(seq(MAX_BUF_SIZE + 1, _ => x))
      && ContentsUpTo(s, MAX_BUF_SIZE) == Success(seq(MAX_BUF_SIZE, _ => x))
  {
    var d := seq(MAX_BUF_SIZE + 1, _ => x);
    var s := [Data(d)];
    assert s[1..] == [];
    assert d + [] == d;
    assert d[..MAX_BUF_SIZE] == seq(MAX_BUF_SIZE, _ => x);
  }
}
