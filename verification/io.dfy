/**
 Input acquisition shared by the three front ends. Standard input is a
 sequence of chunks: each `read` call returns at most the bytes left in the
 head chunk (a short read), an empty chunk or the end of the sequence is end
 of file, and a broken chunk is a read error. Files and memory maps are
 outside the model; their outcomes arrive as parameters.
 */
module Io {
  import opened Spec

  /** The in-memory buffer size before standard input spills to a temporary file (4 MiB). */
  const MAX_BUF_SIZE: nat := 4 * 1024 * 1024

  /** Capacity `io::copy` reads with. */
  const COPY_BUF_SIZE: nat := 8 * 1024

  datatype IoError = ReadFailed | OpenFailed | MapFailed

  datatype Result<+T> = Success(value: T) | Failure(error: IoError)

  datatype Option<+T> = None | Some(value: T)

  datatype Chunk = Data(bytes: seq<byte>) | Broken

  type Stream = seq<Chunk>

  /**
   Where the bytes of one path come from in the newer front ends: standard
   input (with the outcome of trying to memory-map it, and the stream itself)
   or a file (the outcome of `File::open` followed by `Mmap::map`).
   */
  datatype Input =
    | Stdin(mapped: Result<seq<byte>>, stream: Stream, spill: Spill)
    | File(mapped: Result<seq<byte>>)

  /** How the spill file is opened: `File::create` gives a handle that can only be written. */
  datatype Access = WriteOnly | ReadWrite

  /**
   The outcomes of the spill file's system calls: creating it and writing
   the full buffer to it, and mapping it once the copy is done (for a handle
   that can be read).
   */
  datatype Spill = Spill(created: Result<()>, mapped: Result<()>)

  /** What one `read` call returns, and the stream left behind. */
  datatype Read = Read(got: Result<seq<byte>>, rest: Stream)

  /** Measure that every consuming read decreases. */
  function Size(s: Stream): nat
  {
    if |s| == 0 then 0 else 1 + (if s[0].Data? then |s[0].bytes| else 0) + Size(s[1..])
  }

  /** `d` written in front of a result, errors passed through. */
  function Prepend(d: seq<byte>, r: Result<seq<byte>>): Result<seq<byte>>
  {
    match r
    case Success(c) => Success(d + c)
    case Failure(e) => Failure(e)
  }

  /** Everything the stream yields up to end of file, or the error it runs into first. */
  function Contents(s: Stream): Result<seq<byte>>
  {
    if |s| == 0 then Success([])
    else match s[0]
      case Broken => Failure(ReadFailed)
      case Data(d) => if |d| == 0 then Success([]) else Prepend(d, Contents(s[1..]))
  }

  /**
   What reads into a window of `n` bytes yield until it is full or the stream
   ends: a read into an empty window returns nothing and looks at nothing.
   */
  function ContentsUpTo(s: Stream, n: nat): Result<seq<byte>>
  {
    if n == 0 || |s| == 0 then Success([])
    else match s[0]
      case Broken => Failure(ReadFailed)
      case Data(d) =>
        if |d| == 0 then Success([])
        else if |d| >= n then Success(d[..n])
        else Prepend(d, ContentsUpTo(s[1..], n - |d|))
  }

  /**
   `reader.read(&mut buf)` with `buf.len() == cap`, on standard input, which
   std reads through its own buffer. An empty window returns no bytes and
   consumes nothing, but refilling that buffer fails when the stream's next
   chunk is an error. Otherwise the bytes returned followed by what is left
   is what the stream held, and a read that returns nothing has reached end
   of file.
   */
  function ReadAtMost(s: Stream, cap: nat): (r: Read)
    ensures r.got.Success? ==> |r.got.value| <= cap
    ensures r.got.Failure? ==> r.got.error == ReadFailed
    ensures cap == 0 ==> r.rest == s && (r.got.Failure? <==> BrokenAfter(s, 0))
    ensures cap == 0 && r.got.Success? ==> r.got.value == []
    ensures cap > 0 && r.got.Failure? ==> Contents(s) == ContentsUpTo(s, cap) == Failure(r.got.error)
    ensures cap > 0 && r.got.Success? && |r.got.value| == 0 ==> Contents(s) == Success([]) && ContentsUpTo(s, cap) == Success([])
    ensures r.got.Success? && |r.got.value| > 0 ==>
      && Contents(s) == Prepend(r.got.value, Contents(r.rest))
      && Size(r.rest) < Size(s)
  {
    if cap == 0 then Read(if |s| > 0 && s[0].Broken? then Failure(ReadFailed) else Success([]), s)
    else if |s| == 0 then Read(Success([]), s)
    else match s[0]
      case Broken => Read(Failure(ReadFailed), s[1..])
      case Data(d) =>
        if |d| == 0 then Read(Success([]), s)
        else if |d| <= cap then Read(Success(d), s[1..])
        else
          var rest := [Data(d[cap..])] + s[1..];
          assert rest[1..] == s[1..];
          assert d == d[..cap] + d[cap..];
          PrependTwice(d[..cap], d[cap..], Contents(s[1..]));
          Read(Success(d[..cap]), rest)
  }

  /** Reading the remaining window after some bytes keeps the capped contents. */
  lemma {:induction false} ReadUpTo(s: Stream, cap: nat, n: nat)
    requires 0 < cap <= n
    requires ReadAtMost(s, cap).got.Success? && |ReadAtMost(s, cap).got.value| > 0
    ensures var r := ReadAtMost(s, cap);
      ContentsUpTo(s, n) == Prepend(r.got.value, ContentsUpTo(r.rest, n - |r.got.value|))
  {
    var r := ReadAtMost(s, cap);
    var d := s[0].bytes;
    if |d| > cap {
      var rest := [Data(d[cap..])] + s[1..];
      assert rest[1..] == s[1..];
      if |d| >= n {
        assert d[..n] == d[..cap] + d[cap..][..n - cap];
      } else {
        assert d == d[..cap] + d[cap..];
        assert ContentsUpTo(rest, n - cap) == Prepend(d[cap..], ContentsUpTo(s[1..], n - |d|));
        PrependTwice(d[..cap], d[cap..], ContentsUpTo(s[1..], n - |d|));
      }
    } else if |d| == n {
      assert d[..n] == d == d + [];
    }
  }

  /**
   The chunk that follows the first `n` bytes of the stream is an error:
   a read made once exactly `n` bytes have been taken fails.
   */
  predicate BrokenAfter(s: Stream, n: nat)
    decreases |s|
  {
    if |s| == 0 then false
    else if n == 0 then s[0].Broken?
    else match s[0]
      case Broken => false
      case Data(d) => if |d| == 0 || |d| > n then false else BrokenAfter(s[1..], n - |d|)
  }

  /** Reading part of a window leaves what follows the window's end unchanged. */
  lemma ReadKeepsBrokenAfter(s: Stream, cap: nat, n: nat)
    requires 0 < cap <= n
    requires ReadAtMost(s, cap).got.Success? && |ReadAtMost(s, cap).got.value| > 0
    ensures var r := ReadAtMost(s, cap);
      BrokenAfter(s, n) == BrokenAfter(r.rest, n - |r.got.value|)
  {
    var d := s[0].bytes;
    if |d| > cap {
      var rest := [Data(d[cap..])] + s[1..];
      assert rest[1..] == s[1..];
    }
  }

  /** The capped contents are the leading bytes of the whole contents. */
  lemma {:induction false} ContentsUpToPrefix(s: Stream, n: nat)
    requires Contents(s).Success?
    ensures var c := Contents(s).value;
      ContentsUpTo(s, n) == Success(if |c| <= n then c else c[..n])
    decreases |s|
  {
    if n > 0 && |s| > 0 && s[0].Data? && |s[0].bytes| > 0 {
      var d := s[0].bytes;
      var c := Contents(s).value;
      var c' := Contents(s[1..]).value;
      assert c == d + c';
      if |d| < n {
        ContentsUpToPrefix(s[1..], n - |d|);
        if |c| > n {
          assert c[..n] == d + c'[..n - |d|];
        }
      } else if |c| <= n {
        assert d[..n] == d == c;
      } else {
        assert c[..n] == d[..n];
      }
    }
  }

  /** `std::io::copy` from the stream: everything up to end of file, or the first error. */
  method Copy(s: Stream) returns (r: Result<seq<byte>>)
    ensures r == Contents(s)
  {
    var rest := s;
    var copied: seq<byte> := [];
    PrependNothing(Contents(s));
    while true
      invariant Prepend(copied, Contents(rest)) == Contents(s)
      decreases Size(rest)
    {
      var read := ReadAtMost(rest, COPY_BUF_SIZE);
      if read.got.Failure? {
        return Failure(read.got.error);
      }
      if |read.got.value| == 0 {
        assert copied + [] == copied;
        return Success(copied);
      }
      PrependTwice(copied, read.got.value, Contents(read.rest));
      copied := copied + read.got.value;
      rest := read.rest;
    }
  }

  /** Writing nothing in front changes nothing. */
  lemma PrependNothing(r: Result<seq<byte>>)
    ensures Prepend([], r) == r
  {
    if r.Success? {
      assert [] + r.value == r.value;
    }
  }

  /** Writing `a` then `b` in front is writing `a + b` in front. */
  lemma PrependTwice(a: seq<byte>, b: seq<byte>, r: Result<seq<byte>>)
    ensures Prepend(a, Prepend(b, r)) == Prepend(a + b, r)
  {
    if r.Success? {
      assert a + (b + r.value) == (a + b) + r.value;
    }
  }

  /**
   Mapping a handle: a memory map is readable, so a handle that cannot be
   read is refused whatever the platform would otherwise do.
   */
  function MapHandle(access: Access, mapped: Result<()>): Result<()>
  {
    if access == WriteOnly then Failure(MapFailed) else mapped
  }

  /** The first 4 MiB of the stream can be read: the buffer fills and spills. */
  predicate Reaches(s: Stream)
  {
    var c := ContentsUpTo(s, MAX_BUF_SIZE);
    c.Success? && |c.value| == MAX_BUF_SIZE
  }

  /**
   The view once the buffer has spilled: a failure to create or write the
   file comes first, then a failure to read what follows, then a failure to
   map the file; otherwise the file holds `whole`.
   */
  function AfterSpill(access: Access, spill: Spill, whole: Result<seq<byte>>): Result<seq<byte>>
  {
    if spill.created.Failure? then Failure(spill.created.error)
    else if whole.Failure? then whole
    else if MapHandle(access, spill.mapped).Failure? then Failure(MapHandle(access, spill.mapped).error)
    else whole
  }

  /** What buffered standard input yields: the stream, through the spill file once it reaches 4 MiB. */
  function Buffered(s: Stream, access: Access, spill: Spill): Result<seq<byte>>
  {
    if Reaches(s) then AfterSpill(access, spill, Contents(s)) else Contents(s)
  }

  /**
   The buffered standard-input path of the newer versions: fill a 4 MiB
   buffer; once it is exactly full, write it to a temporary file, copy the
   rest of the stream after it and map the file. It spills exactly when the
   first 4 MiB can be read; what it yields is the stream, or the first error
   of the reads and the spill file's system calls.
   */
  method BufferStdin(s: Stream, access: Access, spill: Spill) returns (view: Result<seq<byte>>, spilled: bool)
    ensures spilled <==> Reaches(s)
    ensures view == Buffered(s, access, spill)
    ensures view.Success? ==> view == Contents(s) && (spilled <==> |view.value| >= MAX_BUF_SIZE)
  {
    var buf: seq<byte> := seq(MAX_BUF_SIZE, _ => 0);
    var total: nat := 0;
    var rest := s;
    PrependNothing(Contents(s));
    PrependNothing(ContentsUpTo(s, MAX_BUF_SIZE));
    while true
      invariant Filling(s, buf, total, rest)
      decreases Size(rest)
    {
      var read := ReadAtMost(rest, MAX_BUF_SIZE - total);
      if read.got.Failure? {
        ReachesIff(s);
        return Failure(read.got.error), false;
      }
      var d := read.got.value;
      if |d| == 0 {
        assert buf[0..total] + [] == buf[..total];
        ReachesIff(s);
        return Success(buf[0..total]), false;
      }
      buf, total, rest := FillStep(s, buf, total, rest, read);
      if total == MAX_BUF_SIZE {
        assert buf[..total] == buf;
        ReachesIff(s);
        if spill.created.Failure? {
          return Failure(spill.created.error), true;
        }
        var copied := Copy(rest);
        var whole := Prepend(buf, copied);
        if whole.Failure? {
          return whole, true;
        }
        var m := MapHandle(access, spill.mapped);
        if m.Failure? {
          return Failure(m.error), true;
        }
        return whole, true;
      }
    }
  }

  /**
   The state of the filling loop: the buffer's leading `total` bytes followed
   by what is left give both the stream's contents and its first 4 MiB.
   */
  predicate Filling(s: Stream, buf: seq<byte>, total: nat, rest: Stream)
  {
    && |buf| == MAX_BUF_SIZE && total < MAX_BUF_SIZE
    && Prepend(buf[..total], Contents(rest)) == Contents(s)
    && Prepend(buf[..total], ContentsUpTo(rest, MAX_BUF_SIZE - total)) == ContentsUpTo(s, MAX_BUF_SIZE)
  }

  /** One non-empty read copied into the buffer. */
  method FillStep(s: Stream, buf: seq<byte>, total: nat, rest: Stream, read: Read)
    returns (buf2: seq<byte>, total2: nat, rest2: Stream)
    requires Filling(s, buf, total, rest) && read == ReadAtMost(rest, MAX_BUF_SIZE - total)
    requires read.got.Success? && |read.got.value| > 0
    ensures total < total2 <= MAX_BUF_SIZE && rest2 == read.rest && Size(rest2) < Size(rest)
    ensures |buf2| == MAX_BUF_SIZE
    ensures Prepend(buf2[..total2], Contents(rest2)) == Contents(s)
    ensures Prepend(buf2[..total2], ContentsUpTo(rest2, MAX_BUF_SIZE - total2)) == ContentsUpTo(s, MAX_BUF_SIZE)
    ensures total2 < MAX_BUF_SIZE ==> Filling(s, buf2, total2, rest2)
  {
    var d := read.got.value;
    ghost var before := buf[..total];
    ReadUpTo(rest, MAX_BUF_SIZE - total, MAX_BUF_SIZE - total);
    PrependTwice(before, d, Contents(read.rest));
    PrependTwice(before, d, ContentsUpTo(read.rest, MAX_BUF_SIZE - total - |d|));
    buf2 := buf[..total] + d + buf[total + |d|..];
    assert buf2[..total + |d|] == before + d;
    total2 := total + |d|;
    rest2 := read.rest;
  }

  /** Spilling is the same as holding at least 4 MiB, for a stream that reads to its end. */
  lemma ReachesIff(s: Stream)
    ensures Contents(s).Success? ==> (Reaches(s) <==> |Contents(s).value| >= MAX_BUF_SIZE)
  {
    if Contents(s).Success? {
      ContentsUpToPrefix(s, MAX_BUF_SIZE);
    }
  }

  /**
   Whatever the spill file's system calls do, a buffered view that succeeds
   is the whole stream, and a stream under 4 MiB never touches the file.
   With a readable spill file whose calls succeed, the view is the stream.
   */
  lemma BufferedKeepsWhole(s: Stream, access: Access, spill: Spill)
    ensures Buffered(s, access, spill).Success? ==> Buffered(s, access, spill) == Contents(s)
    ensures Contents(s).Success? && |Contents(s).value| < MAX_BUF_SIZE ==> Buffered(s, access, spill) == Contents(s)
    ensures spill.created.Success? && spill.mapped.Success? ==> Buffered(s, ReadWrite, spill) == Contents(s)
  {
    ReachesIff(s);
  }

  /**
   The spill file as the newer versions open it, with `File::create`: every
   stream that holds at least 4 MiB ends in an error, whatever the platform
   would do with a readable handle.
   */
  lemma WriteOnlySpillFails(s: Stream, spill: Spill)
    requires Contents(s).Success? && |Contents(s).value| >= MAX_BUF_SIZE
    ensures Buffered(s, WriteOnly, spill).Failure?
  {
    ReachesIff(s);
  }
}
