/**
 The scalar scanners shared by every strategy, and the scanning invariant all
 of them keep. The sink is modelled as the log of the slices written to it,
 in order; the bytes the sink receives are `Flatten(log)`.
 */
module Scan {
  import opened Spec

  /** Number of `sep` bytes in `s`. */
  function Occurrences(s: seq<byte>, sep: byte): nat
  {
    if |s| == 0 then 0 else (if s[0] == sep then 1 else 0) + Occurrences(s[1..], sep)
  }

  /** Counting separators one more byte down. */
  lemma OccurrencesCons(b: seq<byte>, sep: byte, i: nat, end: nat)
    requires i < end <= |b|
    ensures Occurrences(b[i..end], sep) == (if b[i] == sep then 1 else 0) + Occurrences(b[i + 1..end], sep)
  {
    assert b[i..end][1..] == b[i + 1..end];
  }

  /**
   The state of a backward scan: indices `[lo, |b|)` are inspected, `stop`
   (the cursor `last_printed`) is where the next write ends, the bytes between
   `lo` and `stop` hold a separator at most at their end, and what is written
   so far followed by the output for `b[..stop]` is the output for `b`.
   */
  predicate Progress(b: seq<byte>, sep: byte, lo: int, stop: int, log: seq<seq<byte>>)
  {
    && 0 <= lo <= stop <= |b|
    && (forall k :: lo <= k < stop - 1 ==> b[k] != sep)
    && Flatten(log) + Tac(b[..stop], sep) == Tac(b, sep)
  }

  /** Before anything is inspected or written. */
  lemma ProgressStart(b: seq<byte>, sep: byte)
    ensures Progress(b, sep, |b|, |b|, [])
  {
    assert b[..|b|] == b;
  }

  /** Inspecting a byte that causes no write: not a separator, or one right at the cursor. */
  lemma ProgressSkip(b: seq<byte>, sep: byte, lo: int, stop: int, log: seq<seq<byte>>)
    requires Progress(b, sep, lo, stop, log)
    requires 0 < lo && (b[lo - 1] != sep || lo == stop)
    ensures Progress(b, sep, lo - 1, stop, log)
  {
  }

  /** Inspecting a separator at `lo - 1`: write `b[lo..stop]` and move the cursor to `lo`. */
  lemma ProgressMatch(b: seq<byte>, sep: byte, lo: int, stop: int, log: seq<seq<byte>>)
    requires Progress(b, sep, lo, stop, log)
    requires 0 < lo && b[lo - 1] == sep
    ensures Progress(b, sep, lo - 1, lo, log + [b[lo..stop]])
  {
    var p, s := b[..lo], b[lo..stop];
    assert p + s == b[..stop];
    assert SepOnlyAtEnd(s, sep) by {
      forall j | 0 <= j < |s| - 1
        ensures s[j] != sep
      {
        assert s[j] == b[lo + j];
      }
    }
    assert p[|p| - 1] == sep;
    TacSplit(p, s, sep);
    FlattenAppend(log, s);
    calc {
      Flatten(log + [s]) + Tac(p, sep);
      (Flatten(log) + s) + Tac(p, sep);
      Flatten(log) + (s + Tac(p, sep));
      Flatten(log) + Tac(b[..stop], sep);
    }
  }

  /** Skipping a run of bytes none of which is a separator. */
  lemma ProgressSkipRun(b: seq<byte>, sep: byte, a: int, lo: int, stop: int, log: seq<seq<byte>>)
    requires Progress(b, sep, lo, stop, log)
    requires 0 <= a <= lo
    requires forall k :: a <= k < lo ==> b[k] != sep
    ensures Progress(b, sep, a, stop, log)
  {
  }

  /** Once every index is inspected, the final prefix write completes the output. */
  lemma ProgressFinish(b: seq<byte>, sep: byte, stop: int, log: seq<seq<byte>>)
    requires Progress(b, sep, 0, stop, log)
    ensures Flatten(log + [b[..stop]]) == Tac(b, sep)
  {
    assert SepOnlyAtEnd(b[..stop], sep);
    TacOfLastSegment(b[..stop], sep);
    FlattenAppend(log, b[..stop]);
  }

  /**
   What a slow scan of `[i, end)` has done to a cursor that started at
   `stop` and a log that started as `log`: the cursor only went down, and
   only to one past a separator in the range; no separator in the range lies
   below it; one slice was written per separator and the earlier writes stay.
   */
  predicate Scanned(b: seq<byte>, sep: byte, i: nat, end: nat, stop: nat, log: seq<seq<byte>>,
                    stop': nat, log': seq<seq<byte>>)
  {
    && i <= end <= stop <= |b| && i <= stop' <= stop
    && (stop' == stop || (i < stop' <= end && b[stop' - 1] == sep))
    && (forall k :: i <= k < end && k < stop' - 1 ==> b[k] != sep)
    && |log'| == |log| + Occurrences(b[i..end], sep) && log'[..|log|] == log
  }

  /** Inspecting byte `i - 1`: a separator writes `b[i..stop']` and moves the cursor to `i`. */
  lemma ScannedStep(b: seq<byte>, sep: byte, i: nat, end: nat, stop: nat, log: seq<seq<byte>>,
                    stop': nat, log': seq<seq<byte>>)
    requires Scanned(b, sep, i, end, stop, log, stop', log') && i > 0
    ensures b[i - 1] == sep ==> Scanned(b, sep, i - 1, end, stop, log, i, log' + [b[i..stop']])
    ensures b[i - 1] != sep ==> Scanned(b, sep, i - 1, end, stop, log, stop', log')
  {
    OccurrencesCons(b, sep, i - 1, end);
    if b[i - 1] == sep {
      assert (log' + [b[i..stop']])[..|log|] == log'[..|log|];
    }
  }

  /**
   Inspects `b[start..end)` from the top down; at each separator `i` writes
   `b[i+1..stop]` and moves `stop` to `i + 1`.
   */
  method SlowSearchAndPrint(b: seq<byte>, sep: byte, start: nat, end: nat, stop: nat, log: seq<seq<byte>>)
    returns (stop': nat, log': seq<seq<byte>>)
    requires start <= end <= stop <= |b|
    ensures stop' <= stop
    ensures stop' == stop || (start < stop' <= end && b[stop' - 1] == sep)
    ensures forall k :: start <= k < end && k < stop' - 1 ==> b[k] != sep
    ensures |log'| == |log| + Occurrences(b[start..end], sep) && log'[..|log|] == log
    ensures Progress(b, sep, end, stop, log) ==> Progress(b, sep, start, stop', log')
  {
    ghost var wasProgress := Progress(b, sep, end, stop, log);
    var i := end;
    stop', log' := stop, log;
    assert b[end..end] == [];
    assert log[..|log|] == log;
    while i > start
      invariant start <= i && Scanned(b, sep, i, end, stop, log, stop', log')
      invariant wasProgress ==> Progress(b, sep, i, stop', log')
    {
      ScannedStep(b, sep, i, end, stop, log, stop', log');
      if b[i - 1] == sep {
        if wasProgress {
          ProgressMatch(b, sep, i, stop', log');
        }
        log' := log' + [b[i..stop']];
        stop' := i;
      } else if wasProgress {
        ProgressSkip(b, sep, i, stop', log');
      }
      i := i - 1;
    }
  }

  /**
   The reference strategy with a separator parameter: one slow scan over the
   whole buffer, then the prefix write. Its output is the segment reversal,
   with one write per separator plus the final one.
   */
  method Search(b: seq<byte>, sep: byte) returns (log: seq<seq<byte>>)
    ensures Flatten(log) == Tac(b, sep)
    ensures |log| == Occurrences(b, sep) + 1
  {
    ProgressStart(b, sep);
    var stop;
    stop, log := SlowSearchAndPrint(b, sep, 0, |b|, |b|, []);
    ProgressFinish(b, sep, stop, log);
    log := log + [b[..stop]];
    assert b[0..|b|] == b;
  }
}
