/**
 The reference meaning of `tac`: a byte buffer is cut after every separator
 byte into segments, and the segments are written out last one first. Each
 segment keeps the separator that ended it in the input; the trailing
 remainder (the bytes after the last separator) is written first, as is.
 */
module Spec {

  /** An unsigned 8-bit value, as stored in the buffer. */
  type byte = x: int | 0 <= x < 256

  /** The default separator, `b'\n'`. */
  const NEWLINE: byte := 10

  /** Index of the first `sep` in `b`, or `|b|` when there is none. */
  function FirstSep(b: seq<byte>, sep: byte): (k: nat)
    ensures k <= |b|
    ensures k < |b| ==> b[k] == sep
    ensures forall j :: 0 <= j < k ==> b[j] != sep
  {
    if |b| == 0 then 0
    else if b[0] == sep then 0
    else 1 + FirstSep(b[1..], sep)
  }

  /** The output `tac` promises: the separator-terminated segments of `b` in reverse order. */
  function Tac(b: seq<byte>, sep: byte): seq<byte>
    decreases |b|
  {
    var k := FirstSep(b, sep);
    if k == |b| then b else Tac(b[k + 1..], sep) + b[..k + 1]
  }

  /** The segments of `b`: the bytes up to and including each `sep`, then the remainder. */
  function Segments(b: seq<byte>, sep: byte): seq<seq<byte>>
    decreases |b|
  {
    var k := FirstSep(b, sep);
    if k == |b| then [b] else [b[..k + 1]] + Segments(b[k + 1..], sep)
  }

  /** There is at least one segment; each but the last ends in its only `sep`, and the last holds none. */
  lemma {:induction false} SegmentsShape(b: seq<byte>, sep: byte)
    ensures |Segments(b, sep)| > 0
    ensures forall i :: 0 <= i < |Segments(b, sep)| - 1 ==> EndsWithSep(Segments(b, sep)[i], sep)
    ensures forall i :: 0 <= i < |Segments(b, sep)| ==> SepOnlyAtEnd(Segments(b, sep)[i], sep)
    ensures NoSep(Segments(b, sep)[|Segments(b, sep)| - 1], sep)
    decreases |b|
  {
    var k := FirstSep(b, sep);
    if k < |b| {
      var tail := Segments(b[k + 1..], sep);
      SegmentsShape(b[k + 1..], sep);
      var ss := [b[..k + 1]] + tail;
      forall i | 1 <= i < |ss|
        ensures ss[i] == tail[i - 1]
      {
      }
    }
  }

  /** Concatenation of a write log, in the order the writes happened. */
  function Flatten(log: seq<seq<byte>>): seq<byte>
  {
    if |log| == 0 then [] else Flatten(log[..|log| - 1]) + log[|log| - 1]
  }

  /** Concatenation of a list of pieces, first piece first (the input order). */
  function Concat(ss: seq<seq<byte>>): seq<byte>
  {
    if |ss| == 0 then [] else ss[0] + Concat(ss[1..])
  }

  /** Concatenation of a list of pieces, last piece first. */
  function ConcatReversed(ss: seq<seq<byte>>): seq<byte>
  {
    if |ss| == 0 then [] else ConcatReversed(ss[1..]) + ss[0]
  }

  /** True when `b` holds no `sep` at all. */
  predicate NoSep(b: seq<byte>, sep: byte)
  {
    forall j :: 0 <= j < |b| ==> b[j] != sep
  }

  /** True when `b` is non-empty and ends in `sep`. */
  predicate EndsWithSep(b: seq<byte>, sep: byte)
  {
    |b| > 0 && b[|b| - 1] == sep
  }

  /** True when `b` holds no `sep` before its last position. */
  predicate SepOnlyAtEnd(b: seq<byte>, sep: byte)
  {
    forall j :: 0 <= j < |b| - 1 ==> b[j] != sep
  }

  lemma FlattenAppend(log: seq<seq<byte>>, w: seq<byte>)
    ensures Flatten(log + [w]) == Flatten(log) + w
  {
    assert (log + [w])[..|log|] == log;
  }

  /** Splitting the input at its separators and gluing the pieces back gives the input. */
  lemma {:induction false} SegmentsRoundTrip(b: seq<byte>, sep: byte)
    ensures Concat(Segments(b, sep)) == b
    decreases |b|
  {
    var k := FirstSep(b, sep);
    if k < |b| {
      var tail := Segments(b[k + 1..], sep);
      calc {
        Concat(Segments(b, sep));
        Concat([b[..k + 1]] + tail);
        { ConcatCons(b[..k + 1], tail); }
        b[..k + 1] + Concat(tail);
        { SegmentsRoundTrip(b[k + 1..], sep); }
        b[..k + 1] + b[k + 1..];
      }
      assert b[..k + 1] + b[k + 1..] == b;
    } else {
      calc {
        Concat(Segments(b, sep));
        Concat([b] + []);
        { ConcatCons(b, []); }
        b + [];
      }
      assert b + [] == b;
    }
  }

  /** Concatenating a piece in front. */
  lemma ConcatCons(x: seq<byte>, ss: seq<seq<byte>>)
    ensures Concat([x] + ss) == x + Concat(ss)
  {
    assert ([x] + ss)[1..] == ss;
  }

  /** `Tac` writes the segments of the input last one first. */
  lemma {:induction false} TacIsSegmentsReversed(b: seq<byte>, sep: byte)
    ensures Tac(b, sep) == ConcatReversed(Segments(b, sep))
    decreases |b|
  {
    var k := FirstSep(b, sep);
    if k < |b| {
      var ss := [b[..k + 1]] + Segments(b[k + 1..], sep);
      assert ss[1..] == Segments(b[k + 1..], sep);
      TacIsSegmentsReversed(b[k + 1..], sep);
    } else {
      assert ConcatReversed([b]) == ConcatReversed([b][1..]) + b;
    }
  }

  /**
   The step every scanner relies on: when `p` is empty or ends in a separator
   and `s` holds a separator at most at its end, the output of `p + s` starts
   with `s` and continues with the output of `p`.
   */
  lemma {:induction false} TacSplit(p: seq<byte>, s: seq<byte>, sep: byte)
    requires |p| == 0 || p[|p| - 1] == sep
    requires SepOnlyAtEnd(s, sep)
    ensures Tac(p + s, sep) == s + Tac(p, sep)
    decreases |p|
  {
    if |p| == 0 {
      assert p + s == s;
      TacOfLastSegment(s, sep);
      TacOfLastSegment(p, sep);
    } else {
      var k := FirstSep(p, sep);
      assert p[|p| - 1] == sep;
      assert k < |p|;
      var rest := p[k + 1..];
      assert |rest| == 0 || rest[|rest| - 1] == sep;
      TacSplit(rest, s, sep);
      TacSplitStep(p, s, sep, k);
    }
  }

  /** The inductive step of `TacSplit`, given its claim for what follows the first separator. */
  lemma TacSplitStep(p: seq<byte>, s: seq<byte>, sep: byte, k: nat)
    requires k < |p| && k == FirstSep(p, sep)
    requires Tac(p[k + 1..] + s, sep) == s + Tac(p[k + 1..], sep)
    ensures Tac(p + s, sep) == s + Tac(p, sep)
  {
    TacFirstSegment(p, s, sep, k);
  }

  /** A piece holding a separator at most at its end is its own output. */
  lemma TacOfLastSegment(s: seq<byte>, sep: byte)
    requires SepOnlyAtEnd(s, sep)
    ensures Tac(s, sep) == s
  {
    var k := FirstSep(s, sep);
    if k < |s| {
      assert k == |s| - 1;
      assert s[k + 1..] == [];
      assert s[..k + 1] == s;
      assert Tac([], sep) == [];
    }
  }

  /** Unfolds `Tac` once on `p + s` when the first separator lies in `p`, at `k`. */
  lemma TacFirstSegment(p: seq<byte>, s: seq<byte>, sep: byte, k: nat)
    requires k < |p| && k == FirstSep(p, sep)
    ensures Tac(p + s, sep) == Tac(p[k + 1..] + s, sep) + p[..k + 1]
    ensures Tac(p, sep) == Tac(p[k + 1..], sep) + p[..k + 1]
  {
    var b := p + s;
    assert forall j :: 0 <= j <= k ==> b[j] == p[j];
    assert FirstSep(b, sep) == k;
    assert b[..k + 1] == p[..k + 1];
    assert b[k + 1..] == p[k + 1..] + s;
  }

  /** The output has exactly the input's bytes: a permutation of it. */
  lemma {:induction false} TacPermutes(b: seq<byte>, sep: byte)
    ensures multiset(Tac(b, sep)) == multiset(b)
    ensures |Tac(b, sep)| == |b|
    decreases |b|
  {
    var k := FirstSep(b, sep);
    if k < |b| {
      TacPermutes(b[k + 1..], sep);
      assert b == b[..k + 1] + b[k + 1..];
    }
  }

  /** Input without a separator is one segment, and comes out unchanged. */
  lemma NoSeparatorUnchanged(b: seq<byte>, sep: byte)
    requires forall j :: 0 <= j < |b| ==> b[j] != sep
    ensures Segments(b, sep) == [b]
    ensures Tac(b, sep) == b
  {
    TacSplit([], b, sep);
    assert [] + b == b;
  }

  /** Input made only of separators comes out unchanged. */
  lemma {:induction false} AllSeparatorsUnchanged(b: seq<byte>, sep: byte)
    requires forall j :: 0 <= j < |b| ==> b[j] == sep
    ensures Tac(b, sep) == b
    decreases |b|
  {
    if |b| > 0 {
      var p := b[..|b| - 1];
      TacSplit(p, [sep], sep);
      assert p + [sep] == b;
      AllSeparatorsUnchanged(p, sep);
    }
  }

  /** Three segments, each ending in its only separator except perhaps the last, come out last one first. */
  lemma TacThree(a: seq<byte>, b: seq<byte>, c: seq<byte>, sep: byte)
    requires EndsWithSep(a, sep) && EndsWithSep(b, sep)
    requires SepOnlyAtEnd(a, sep) && SepOnlyAtEnd(b, sep) && SepOnlyAtEnd(c, sep)
    ensures Tac(a + b + c, sep) == c + b + a
  {
    TacOfLastSegment(a, sep);
    TacSplit(a, b, sep);
    assert (a + b)[|a + b| - 1] == b[|b| - 1];
    TacSplit(a + b, c, sep);
  }

  /** `"a\nb\nc\n"` becomes `"c\nb\na\n"`, for any three non-separator bytes. */
  lemma ExampleTrailingSeparator(x: byte, y: byte, z: byte, sep: byte)
    requires x != sep && y != sep && z != sep
    ensures Tac([x, sep, y, sep, z, sep], sep) == [z, sep, y, sep, x, sep]
  {
    var a, b, c := [x, sep], [y, sep], [z, sep];
    TacThree(a, b, c, sep);
    assert a + b + c == [x, sep, y, sep, z, sep];
    assert c + b + a == [z, sep, y, sep, x, sep];
  }

  /** `"a\nb\nc"` becomes `"cb\na\n"`: the unterminated tail comes first, with no separator added. */
  lemma ExampleNoTrailingSeparator(x: byte, y: byte, z: byte, sep: byte)
    requires x != sep && y != sep && z != sep
    ensures Tac([x, sep, y, sep, z], sep) == [z, y, sep, x, sep]
  {
    var a, b, c := [x, sep], [y, sep], [z];
    TacThree(a, b, c, sep);
    assert a + b + c == [x, sep, y, sep, z];
    assert c + b + a == [z, y, sep, x, sep];
  }
}
