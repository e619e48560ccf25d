/** The byte stream of `src/reassembly.rs`: an append-only buffer with a
    read cursor, built on `std::io::Cursor<Vec<u8>>`.  Bytes are appended
    with `Push` and consumed with `Read`, which follows `Cursor` semantics:
    it copies as much as fits and is available, advances the cursor by that
    much, and never fails.  The writing side is a set of stubs. */
module Reassembly {
  import opened Prelude

  /** `std::io::Error`. Nothing in the stream ever produces one. */
  datatype IoError = IoError(kind: string)

  type IoResult<T> = Result<T, IoError>

  /** `futures::Async`: the outcome of a poll that did not fail. */
  datatype Async<T> = Ready(value: T) | NotReady

  // ---------------------------------------------------------------------
  // Specification of one read and of a run of reads
  // ---------------------------------------------------------------------

  /** How many bytes one read into a buffer of `bufLen` bytes takes when the
      cursor stands at `pos` in `data`: as many as the buffer holds, unless
      fewer remain. */
  function ReadCount(data: seq<byte>, pos: nat, bufLen: nat): (n: nat)
    requires pos <= |data|
    ensures n <= bufLen && pos + n <= |data|
    ensures n == bufLen || pos + n == |data|
    ensures n == 0 <==> bufLen == 0 || pos == |data|
  {
    if bufLen < |data| - pos then bufLen else |data| - pos
  }

  /** The bytes of `chunks`, one chunk after the other. */
  function Concat(chunks: seq<seq<byte>>): seq<byte>
  {
    if chunks == [] then [] else chunks[0] + Concat(chunks[1..])
  }

  function Sum(xs: seq<nat>): nat
  {
    if xs == [] then 0 else xs[0] + Sum(xs[1..])
  }

  /** The chunks returned by successive reads into buffers of the lengths
      `bufLens`, starting at cursor `pos`, and the cursor afterwards. */
  function ReadSequence(data: seq<byte>, pos: nat, bufLens: seq<nat>): (seq<seq<byte>>, nat)
    requires pos <= |data|
    decreases bufLens
  {
    if bufLens == [] then ([], pos)
    else
      var n := ReadCount(data, pos, bufLens[0]);
      var rest := ReadSequence(data, pos + n, bufLens[1..]);
      ([data[pos..pos + n]] + rest.0, rest.1)
  }

  /** Successive reads hand out contiguous, non-overlapping slices of the
      data, in order and without gaps: together they are exactly the bytes
      between the first and the last cursor, the cursor never moves back
      nor past the end, and the reads fall short of the buffers' total only
      when the data runs out. */
  lemma {:induction false} SuccessiveReadsContiguous(data: seq<byte>, pos: nat, bufLens: seq<nat>)
    requires pos <= |data|
    decreases bufLens
    ensures var (chunks, end) := ReadSequence(data, pos, bufLens);
      && pos <= end <= |data|
      && |chunks| == |bufLens|
      && (forall i :: 0 <= i < |chunks| ==> |chunks[i]| <= bufLens[i])
      && Concat(chunks) == data[pos..end]
      && end - pos == (if Sum(bufLens) < |data| - pos then Sum(bufLens) else |data| - pos)
  {
    if bufLens != [] {
      var n := ReadCount(data, pos, bufLens[0]);
      SuccessiveReadsContiguous(data, pos + n, bufLens[1..]);
      var (chunks, end) := ReadSequence(data, pos, bufLens);
      var rest := ReadSequence(data, pos + n, bufLens[1..]);
      assert chunks == [data[pos..pos + n]] + rest.0;
      assert chunks[1..] == rest.0;
      assert data[pos..end] == data[pos..pos + n] + data[pos + n..end];
      forall i | 0 <= i < |chunks|
        ensures |chunks[i]| <= bufLens[i]
      {
        if i > 0 {
          assert chunks[i] == rest.0[i - 1];
        }
      }
    }
  }

  // ---------------------------------------------------------------------
  // Specification of a run of pushes
  // ---------------------------------------------------------------------

  /** The buffer after pushing `chunks`, one after another, onto `data`. */
  function AfterPushes(data: seq<byte>, chunks: seq<seq<byte>>): seq<byte>
    decreases chunks
  {
    if chunks == [] then data else AfterPushes(data + chunks[0], chunks[1..])
  }

  /** Pushes neither reorder, drop nor duplicate: after a run of pushes the
      buffer is the old one followed by every chunk, in push order. */
  lemma {:induction false} AfterPushesAppendsAll(data: seq<byte>, chunks: seq<seq<byte>>)
    decreases chunks
    ensures AfterPushes(data, chunks) == data + Concat(chunks)
  {
    if chunks != [] {
      AfterPushesAppendsAll(data + chunks[0], chunks[1..]);
      assert (data + chunks[0]) + Concat(chunks[1..]) == data + (chunks[0] + Concat(chunks[1..]));
    }
  }

  /** Pushing `a` and then `b` leaves the same buffer as pushing `a + b`. */
  lemma PushTwiceIsPushConcat(data: seq<byte>, a: seq<byte>, b: seq<byte>)
    ensures AfterPushes(data, [a, b]) == AfterPushes(data, [a + b])
  {
    AfterPushesAppendsAll(data, [a, b]);
    AfterPushesAppendsAll(data, [a + b]);
    assert [a, b][1..] == [b];
    assert Concat([a, b]) == a + Concat([b]);
    assert Concat([b]) == b + Concat([]);
    assert Concat([a + b]) == (a + b) + Concat([]);
  }

  // ---------------------------------------------------------------------
  // The stream
  // ---------------------------------------------------------------------

  /** `TcpStream`: the cursor's vector and position. */
  class TcpStream {
    /** Every byte pushed so far (the vector inside the cursor). */
    var buffer: seq<byte>
    /** The cursor position: the index of the next byte a read returns. */
    var position: nat

    /** The cursor never runs past the pushed bytes. */
    ghost predicate Valid()
      reads this
    {
      position <= |buffer|
    }

    /** `TcpStream::new`: an empty buffer, cursor at 0. */
    constructor ()
      ensures Valid()
      ensures buffer == [] && position == 0
    {
      buffer := [];
      position := 0;
    }

    /** `push`: append `bytes` at the end; the cursor stays put. */
    method Push(bytes: seq<byte>)
      requires Valid()
      modifies this
      ensures Valid()
      ensures buffer == old(buffer) + bytes
      ensures position == old(position)
    {
      buffer := buffer + bytes;
    }

    /** `Read::read`: copy the next `n` bytes into `buf[..n]`, where `n` is
        the smaller of the buffer length and the bytes left, advance the
        cursor by `n` and return `Ok(n)`. The rest of `buf` is untouched and
        the read never fails; at the end of the data it returns `Ok(0)`. */
    method Read(buf: array<byte>) returns (r: IoResult<nat>)
      requires Valid()
      modifies this, buf
      ensures Valid()
      ensures r.Ok? && r.value == ReadCount(old(buffer), old(position), buf.Length)
      ensures buffer == old(buffer)
      ensures position == old(position) + r.value
      ensures buf[..r.value] == old(buffer)[old(position)..position]
      ensures buf[r.value..] == old(buf[r.value..])
    {
      var n := ReadCount(buffer, position, buf.Length);
      forall i | 0 <= i < n {
        buf[i] := buffer[position + i];
      }
      position := position + n;
      r := Ok(n);
    }

    /** `Write::write`: a stub that reports the whole buffer as written.
        It has no modifies clause, so it changes neither the bytes nor the
        cursor. */
    method Write(buf: seq<byte>) returns (r: IoResult<nat>)
      ensures r == Ok(|buf|)
    {
      r := Ok(|buf|);
    }

    /** `Write::flush`: succeeds and changes nothing. */
    method Flush() returns (r: IoResult<()>)
      ensures r == Ok(())
    {
      r := Ok(());
    }

    /** `AsyncWrite::shutdown`: ready at once, changes nothing. */
    method Shutdown() returns (r: IoResult<Async<()>>)
      ensures r == Ok(Ready(()))
    {
      r := Ok(Ready(()));
    }
  }

  /** A client of the stream: two pushes are read back in push order by one
      read large enough for both, and the read after that returns 0. */
  method PushThenReadBack(a: seq<byte>, b: seq<byte>) returns (got: seq<byte>, more: nat)
    ensures got == a + b
    ensures more == 0
  {
    var s := new TcpStream();
    s.Push(a);
    s.Push(b);
    var buf := new byte[|a| + |b|];
    var r := s.Read(buf);
    got := buf[..r.value];
    r := s.Read(buf);
    more := r.value;
  }

  /** A client of the stream: a run of reads into buffers of the lengths
      `bufLens` hands out the chunks `ReadSequence` describes, so by
      `SuccessiveReadsContiguous` they are the bytes between the old and
      the new cursor, in order. */
  method ReadSuccessively(s: TcpStream, bufLens: seq<nat>) returns (chunks: seq<seq<byte>>)
    requires s.Valid()
    modifies s
    ensures s.Valid() && s.buffer == old(s.buffer)
    ensures (chunks, s.position) == ReadSequence(old(s.buffer), old(s.position), bufLens)
    ensures old(s.position) <= s.position
    ensures Concat(chunks) == old(s.buffer)[old(s.position)..s.position]
  {
    chunks := [];
    var i := 0;
    assert bufLens[i..] == bufLens;
    assert chunks + ReadSequence(s.buffer, s.position, bufLens).0 == ReadSequence(s.buffer, s.position, bufLens).0;
    while i < |bufLens|
      invariant 0 <= i <= |bufLens|
      invariant s.Valid() && s.buffer == old(s.buffer)
      invariant var rest := ReadSequence(s.buffer, s.position, bufLens[i..]);
        (chunks + rest.0, rest.1) == ReadSequence(old(s.buffer), old(s.position), bufLens)
    {
      ghost var before := s.position;
      ghost var rest := ReadSequence(s.buffer, s.position, bufLens[i..]);
      assert bufLens[i..][0] == bufLens[i] && bufLens[i..][1..] == bufLens[i + 1..];
      var buf := new byte[bufLens[i]];
      var r := s.Read(buf);
      assert buf[..r.value] == s.buffer[before..s.position];
      ghost var next := ReadSequence(s.buffer, s.position, bufLens[i + 1..]);
      assert rest == ([buf[..r.value]] + next.0, next.1);
      assert (chunks + [buf[..r.value]]) + next.0 == chunks + rest.0;
      chunks := chunks + [buf[..r.value]];
      i := i + 1;
    }
    assert bufLens[i..] == [];
    assert chunks + [] == chunks;
    SuccessiveReadsContiguous(old(s.buffer), old(s.position), bufLens);
  }

  /** A client that interleaves pushes and reads: a read sees only what was
      pushed before it, and the two reads together are the start of
      `a ++ b`, in order. */
  method PushReadPushRead(a: seq<byte>, b: seq<byte>, k1: nat, k2: nat) returns (c1: seq<byte>, c2: seq<byte>)
    ensures |c1| == ReadCount(a, 0, k1)
    ensures |c2| == ReadCount(a + b, |c1|, k2)
    ensures c1 + c2 == (a + b)[..|c1| + |c2|]
  {
    var s := new TcpStream();
    s.Push(a);
    var buf1 := new byte[k1];
    var r := s.Read(buf1);
    c1 := buf1[..r.value];
    s.Push(b);
    var buf2 := new byte[k2];
    r := s.Read(buf2);
    c2 := buf2[..r.value];
    assert (a + b)[..|c1|] == a[..|c1|];
  }
}
