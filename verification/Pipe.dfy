/**
 * One direction of a message connection, read as a byte stream.
 *
 * `Pipe.Write` and `Pipe.Read` are the two ends of a `wsStream` pair. A TCP or TLS
 * connection hands its bytes over in pieces of sizes the reader does not choose, so
 * any such connection is a pipe too, with those pieces as its messages. Reading past
 * the last message reports `final`: a read that would wait for the peer is not a
 * step of the model. An `eager` reader reports it together with the last bytes, as the
 * `io.Reader` contract allows; a `wsStream` is not eager.
 *
 * `room` is how many more bytes the link takes before it breaks, if it ever does: the
 * write that exceeds it fails, as do all later ones that carry anything.
 */
module Pipe {
  import opened Wrappers
  import opened Bytes

  datatype ReadError = Eof | UnexpectedEof | Broken

  function Min(a: nat, b: nat): nat
  {
    if a < b then a else b
  }

  /** A buffer with a piece written over it at an offset. */
  function Overwritten(b: bytes, off: nat, piece: bytes): bytes
    requires off + |piece| <= |b|
  {
    b[..off] + piece + b[off + |piece|..]
  }

  lemma OverwriteNothing(b: bytes, off: nat)
    requires off <= |b|
    ensures Overwritten(b, off, []) == b
  {
  }

  lemma OverwriteOneMore(b: bytes, off: nat, piece: bytes, x: byte)
    requires off + |piece| < |b|
    ensures Overwritten(b, off, piece)[off + |piece| := x] == Overwritten(b, off, piece + [x])
  {
  }

  /** The builtin `copy(p[off:], src)`. */
  method Copy(p: array<byte>, off: nat, src: bytes) returns (n: nat)
    requires off <= p.Length
    modifies p
    ensures n == Min(p.Length - off, |src|)
    ensures p[..] == Overwritten(old(p[..]), off, src[..n])
  {
    n := Min(p.Length - off, |src|);
    ghost var b := p[..];
    var i := 0;
    OverwriteNothing(b, off);
    while i < n
      invariant 0 <= i <= n
      invariant p[..] == Overwritten(b, off, src[..i])
    {
      OverwriteOneMore(b, off, src[..i], src[i]);
      assert src[..i + 1] == src[..i] + [src[i]];
      ghost var was := p[..];
      p[off + i] := src[i];
      assert p[..] == was[off + i := src[i]];
      i := i + 1;
    }
  }

  // ---- What a link of limited room takes ----

  predicate Fits(s: bytes, room: Option<nat>)
  {
    room.None? || |s| <= room.value
  }

  function Clip(s: bytes, room: Option<nat>): (c: bytes)
    ensures c <= s && (c == s <==> Fits(s, room))
    ensures !Fits(s, room) ==> |c| == room.value
  {
    if Fits(s, room) then s else s[..room.value]
  }

  function RoomAfter(room: Option<nat>, s: bytes): Option<nat>
  {
    if room.None? then None else Some(room.value - |Clip(s, room)|)
  }

  /** Writing two pieces takes what writing them in one takes. */
  lemma ClipAppend(a: bytes, b: bytes, room: Option<nat>)
    ensures Clip(a + b, room) == Clip(a, room) + Clip(b, RoomAfter(room, a))
    ensures RoomAfter(room, a + b) == RoomAfter(RoomAfter(room, a), b)
    ensures Fits(a + b, room) <==> Fits(a, room) && Fits(b, RoomAfter(room, a))
  {
    if room.Some? && |a + b| > room.value {
      if |a| <= room.value {
        assert (a + b)[..room.value] == a + b[..room.value - |a|];
      } else {
        assert (a + b)[..room.value] == a[..room.value] + b[..0];
      }
    }
  }

  class Pipe {
    var readBuf: bytes
    var queue: seq<bytes>
    var room: Option<nat>
    const final: ReadError
    const eager: bool

    /** Every byte written, and every byte read, since the start. */
    ghost var written: bytes
    ghost var delivered: bytes

    /** Conservation: nothing is lost, invented or reordered between the two ends. */
    ghost predicate Valid()
      reads this
    {
      written == delivered + Remaining()
    }

    /** The bytes still to be read. */
    ghost function Remaining(): bytes
      reads this
    {
      readBuf + Concat(queue)
    }

    constructor (final: ReadError, eager: bool, room: Option<nat>)
      ensures Valid() && Remaining() == [] && written == [] && queue == []
      ensures this.final == final && this.eager == eager && this.room == room
    {
      this.final, this.eager, this.room := final, eager, room;
      readBuf, queue, written, delivered := [], [], [], [];
    }

    /** One message, even an empty one; or as much of it as the link still takes, and an error. */
    method Write(p: bytes) returns (ok: bool)
      requires Valid()
      modifies this
      ensures Valid() && delivered == old(delivered) && readBuf == old(readBuf)
      ensures ok <==> Fits(p, old(room))
      ensures written == old(written) + Clip(p, old(room))
      ensures Remaining() == old(Remaining()) + Clip(p, old(room))
      ensures room == RoomAfter(old(room), p)
      ensures ok ==> queue == old(queue) + [p]
    {
      ok := Fits(p, room);
      var taken := Clip(p, room);
      room := RoomAfter(room, p);
      Appended(readBuf, queue, taken);
      queue := queue + [taken];
      written := written + taken;
    }

    /** `ReadMessage` of the underlying connection. */
    method ReadMessage() returns (msg: bytes, err: Option<ReadError>)
      modifies this`queue
      ensures err.Some? <==> old(queue) == []
      ensures err.Some? ==> err.value == final && queue == []
      ensures err.None? ==> old(queue) == [msg] + queue && Concat(old(queue)) == msg + Concat(queue)
    {
      if queue == [] {
        return [], Some(final);
      }
      msg, err, queue := queue[0], None, queue[1..];
    }

    /** Reads into p[off..], as the source reads into a slice. */
    method Read(p: array<byte>, off: nat) returns (n: nat, err: Option<ReadError>)
      requires Valid() && off <= p.Length
      modifies this, p
      ensures Valid() && written == old(written) && room == old(room)
      ensures off + n <= p.Length && n <= |old(Remaining())|
      ensures p[..] == Overwritten(old(p[..]), off, old(Remaining())[..n])
      ensures Remaining() == old(Remaining())[n..]
      ensures delivered == old(delivered) + old(Remaining())[..n]
      ensures err.Some? ==> Remaining() == [] && err.value == final && (n == 0 || eager)
      ensures err.None? && off < p.Length ==> n > 0 || |queue| < |old(queue)|
      ensures |queue| <= |old(queue)|
    {
      if readBuf == [] {
        var msg;
        msg, err := ReadMessage();
        if err.Some? {
          OverwriteNothing(p[..], off);
          return 0, err;
        }
        readBuf := msg;
        assert Remaining() == old(Remaining());
      }
      n := Copy(p, off, readBuf);
      Split(delivered, readBuf, Concat(queue), n);
      delivered := delivered + readBuf[..n];
      readBuf := readBuf[n..];
      err := if eager && readBuf == [] && queue == [] then Some(final) else None;
    }
  }

  lemma Appended(buf: bytes, queue: seq<bytes>, p: bytes)
    ensures buf + Concat(queue + [p]) == buf + Concat(queue) + p
  {
    ConcatAppend(queue, [p]);
    ConcatOne(p);
  }

  lemma Split(done: bytes, buf: bytes, rest: bytes, n: nat)
    requires n <= |buf|
    ensures (buf + rest)[..n] == buf[..n]
    ensures (buf + rest)[n..] == buf[n..] + rest
    ensures done + (buf + rest) == (done + buf[..n]) + (buf[n..] + rest)
  {
  }

  /** What `io.ReadFull` reports after obtaining n of the `want` bytes it was asked for. */
  function FullError(n: nat, want: nat, final: ReadError): Option<ReadError>
  {
    if n >= want then None
    else if n > 0 && final == Eof then Some(UnexpectedEof)
    else Some(final)
  }

  lemma Splice(stream: bytes, orig: bytes, was: bytes, left: bytes, n: nat, k: nat)
    requires n <= |stream| && n + k <= |orig| && left == stream[n..] && k <= |left|
    requires was == stream[..n] + orig[n..]
    ensures Overwritten(was, n, left[..k]) == stream[..n + k] + orig[n + k..]
    ensures left[k..] == stream[n + k..]
  {
    assert was[n + k..] == orig[n + k..];
    assert stream[..n] + left[..k] == stream[..n + k];
  }

  /** One `Read` into the part of the buffer not yet filled. */
  method ReadMore(r: Pipe, buf: array<byte>, n: nat, ghost stream: bytes, ghost orig: bytes)
    returns (m: nat, err: Option<ReadError>)
    requires r.Valid() && n < buf.Length && n <= |stream| && |orig| == buf.Length
    requires buf[..] == stream[..n] + orig[n..] && r.Remaining() == stream[n..]
    modifies r, buf
    ensures r.Valid() && r.written == old(r.written) && r.room == old(r.room)
    ensures n <= m <= buf.Length && m <= |stream|
    ensures buf[..] == stream[..m] + orig[m..] && r.Remaining() == stream[m..]
    ensures err.Some? ==> m == |stream| && err.value == r.final
    ensures err.None? ==> m > n || |r.queue| < |old(r.queue)|
    ensures |r.queue| <= |old(r.queue)|
  {
    var k;
    k, err := r.Read(buf, n);
    Splice(stream, orig, old(buf[..]), old(r.Remaining()), n, k);
    m := n + k;
  }

  /** `io.ReadFull`: however the stream is cut into pieces, it takes exactly the bytes
      asked for, or all there are and an error. */
  method ReadFull(r: Pipe, buf: array<byte>) returns (n: nat, err: Option<ReadError>)
    requires r.Valid()
    modifies r, buf
    ensures r.Valid() && r.written == old(r.written) && r.room == old(r.room)
    ensures n == Min(buf.Length, |old(r.Remaining())|)
    ensures buf[..] == old(r.Remaining())[..n] + old(buf[..])[n..]
    ensures r.Remaining() == old(r.Remaining())[n..]
    ensures err == FullError(n, buf.Length, r.final)
    ensures err.None? <==> |old(r.Remaining())| >= buf.Length
    ensures err.Some? && old(r.Remaining()) == [] ==> err.value == r.final
    ensures err.Some? && old(r.Remaining()) != [] ==> err.value == if r.final == Eof then UnexpectedEof else r.final
  {
    n, err := 0, None;
    ghost var stream, orig := r.Remaining(), buf[..];
    while n < buf.Length && err.None?
      invariant r.Valid() && r.written == old(r.written) && r.room == old(r.room)
      invariant n <= buf.Length && n <= |stream|
      invariant buf[..] == stream[..n] + orig[n..]
      invariant r.Remaining() == stream[n..]
      invariant err.Some? ==> n == |stream| && err.value == r.final
      decreases buf.Length - n, |r.queue|, err.None?
    {
      n, err := ReadMore(r, buf, n, stream, orig);
    }
    if n >= buf.Length {
      err := None;
    } else if n > 0 && err == Some(Eof) {
      err := Some(UnexpectedEof);
    }
  }

  // ---- What a sequence of exact reads does to a stream, as a function ----

  datatype Parsed<+T> = Parsed(value: T, rest: bytes)

  function Taken(s: bytes, want: nat, final: ReadError): Parsed<Result<bytes, ReadError>>
  {
    if |s| >= want then Parsed(Ok(s[..want]), s[want..])
    else Parsed(Err(FullError(|s|, want, final).value), [])
  }

  /** An exact read fails exactly on a shorter stream, which it uses up; an end that comes in the
      middle is not the clean one. */
  lemma TakenErrorExactly(s: bytes, want: nat, final: ReadError)
    ensures var t := Taken(s, want, final);
            && (t.value.Err? <==> |s| < want)
            && (t.value.Err? ==> t.rest == [])
            && (t.value.Err? ==> t.value.error == if s != [] && final == Eof then UnexpectedEof else final)
  {
  }

  lemma TakenExactly(s: bytes, want: nat, final: ReadError, front: bytes, rest: bytes)
    ensures Taken(s, want, final) == Parsed(Ok(front), rest) <==> |front| == want && s == front + rest
  {
    if |s| >= want {
      assert s == s[..want] + s[want..];
      CutAt(front, rest, s);
    }
  }

  lemma CutAt(front: bytes, rest: bytes, s: bytes)
    ensures s == front + rest ==> s[..|front|] == front && s[|front|..] == rest
  {
  }

  /** `make([]byte, want)` and `io.ReadFull` into it. */
  method Take(r: Pipe, want: nat) returns (res: Result<bytes, ReadError>)
    requires r.Valid()
    modifies r
    ensures r.Valid() && r.written == old(r.written) && r.room == old(r.room)
    ensures Parsed(res, r.Remaining()) == Taken(old(r.Remaining()), want, r.final)
  {
    var buf := new byte[want](_ => 0);
    var n, err := ReadFull(r, buf);
    if err.Some? {
      return Err(err.value);
    }
    assert buf[..] == old(r.Remaining())[..want];
    return Ok(buf[..]);
  }

  lemma FrontOf(after: bytes, b: bytes, piece: bytes)
    requires |piece| <= |b| && after == Overwritten(b, 0, piece)
    ensures after[..|piece|] == piece
  {
  }

  /** One read into a buffer, and what it brought: the bytes are off the front of the stream. */
  method ReadChunk(src: Pipe, buf: array<byte>) returns (chunk: bytes, err: Option<ReadError>)
    requires src.Valid() && buf.Length > 0
    modifies src, buf
    ensures src.Valid() && src.written == old(src.written) && src.room == old(src.room)
    ensures old(src.Remaining()) == chunk + src.Remaining()
    ensures err.Some? ==> src.Remaining() == [] && err.value == src.final
    ensures err.None? ==> |src.Remaining()| + |src.queue| < old(|src.Remaining()| + |src.queue|)
  {
    ghost var left, b := src.Remaining(), buf[..];
    var n;
    n, err := src.Read(buf, 0);
    FrontOf(buf[..], b, left[..n]);
    chunk := buf[..n];
    assert left == left[..n] + left[n..];
  }

  /** One turn of `io.Copy`: a read, and a write of what was read. */
  method CopyChunk(dst: Pipe, src: Pipe, buf: array<byte>,
                   ghost start: bytes, ghost moved: bytes, ghost room: Option<nat>)
    returns (ok: bool, err: Option<ReadError>, ghost moved': bytes)
    requires dst != src && dst.Valid() && src.Valid() && buf.Length > 0
    requires dst.written == start + Clip(moved, room) && dst.room == RoomAfter(room, moved) && Fits(moved, room)
    modifies dst, src, buf
    ensures dst.Valid() && src.Valid() && src.written == old(src.written) && src.room == old(src.room)
    ensures dst.delivered == old(dst.delivered)
    ensures moved' + src.Remaining() == moved + old(src.Remaining())
    ensures dst.written == start + Clip(moved', room) && dst.room == RoomAfter(room, moved')
    ensures ok <==> Fits(moved', room)
    ensures err.Some? ==> src.Remaining() == []
    ensures err.None? ==> |src.Remaining()| + |src.queue| < old(|src.Remaining()| + |src.queue|)
  {
    ok := true;
    var chunk;
    chunk, err := ReadChunk(src, buf);
    moved' := moved + chunk;
    Regroup(moved, chunk, src.Remaining());
    ClipAppend(moved, chunk, room);
    if |chunk| > 0 {
      Regroup(start, Clip(moved, room), Clip(chunk, dst.room));
      ok := dst.Write(chunk);
    } else {
      assert moved' == moved;
    }
  }

  lemma Regroup(a: bytes, b: bytes, c: bytes)
    ensures (a + b) + c == a + (b + c)
  {
  }

  lemma CancelFront(d: bytes, r: bytes, r': bytes, x: bytes)
    requires d + r' == d + r + x
    ensures r' == r + x
  {
    assert (d + r')[|d|..] == r' && (d + r + x)[|d|..] == r + x;
  }

  /** `io.Copy` from a pipe until it ends or a write fails: the destination gets the stream, in
      order, as far as its link goes. */
  method CopyAll(dst: Pipe, src: Pipe) returns (ok: bool)
    requires dst != src && dst.Valid() && src.Valid()
    modifies dst, src
    ensures dst.Valid() && src.Valid() && src.written == old(src.written) && src.room == old(src.room)
    ensures dst.written == old(dst.written) + Clip(old(src.Remaining()), old(dst.room))
    ensures dst.Remaining() == old(dst.Remaining()) + Clip(old(src.Remaining()), old(dst.room))
    ensures dst.room == RoomAfter(old(dst.room), old(src.Remaining()))
    ensures ok <==> Fits(old(src.Remaining()), old(dst.room))
    ensures ok ==> src.Remaining() == []
  {
    var buf := new byte[32768](_ => 0);
    var err: Option<ReadError> := None;
    ok := true;
    ghost var start, moved, stream, room := dst.written, [], src.Remaining(), dst.room;
    while ok && err.None?
      invariant dst.Valid() && src.Valid() && src.written == old(src.written) && src.room == old(src.room)
      invariant dst.delivered == old(dst.delivered) && moved + src.Remaining() == stream
      invariant dst.written == start + Clip(moved, room) && dst.room == RoomAfter(room, moved)
      invariant ok <==> Fits(moved, room)
      invariant err.Some? ==> src.Remaining() == []
      decreases err.None?, |src.Remaining()| + |src.queue|
    {
      ok, err, moved := CopyChunk(dst, src, buf, start, moved, room);
    }
    ClipAppend(moved, src.Remaining(), room);
    CancelFront(dst.delivered, old(dst.Remaining()), dst.Remaining(), Clip(stream, room));
  }
}
