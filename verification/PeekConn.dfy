/** Routing a TCP connection by its peeked name, and putting the peeked bytes back. */
module PeekConn {
  import opened Wrappers
  import opened Bytes
  import opened Pipe
  import opened Sni
  import opened SniGrammar

  class PeekConn {
    const conn: Pipe
    var replay: bytes

    ghost predicate Valid()
      reads this, conn
    {
      conn.Valid()
    }

    /** What the next reader is going to see. */
    ghost function Stream(): bytes
      reads this, conn
    {
      replay + conn.Remaining()
    }

    constructor (conn: Pipe)
      requires conn.Valid()
      ensures Valid() && this.conn == conn && replay == [] && Stream() == conn.Remaining()
    {
      this.conn := conn;
      replay := [];
    }

    method Read(b: array<byte>) returns (n: nat, err: Option<ReadError>)
      requires Valid()
      modifies this, conn, b
      ensures Valid() && conn.written == old(conn.written) && conn.room == old(conn.room)
      ensures n <= b.Length && n <= |old(Stream())|
      ensures b[..] == Overwritten(old(b[..]), 0, old(Stream())[..n])
      ensures Stream() == old(Stream())[n..]
      ensures err.Some? ==> Stream() == [] && err.value == conn.final && (n == 0 || conn.eager)
      ensures err.None? && b.Length > 0 ==> n > 0 || |conn.queue| < |old(conn.queue)|
      ensures |conn.queue| <= |old(conn.queue)|
    {
      if |replay| > 0 {
        n := Copy(b, 0, replay);
        Split([], replay, conn.Remaining(), n);
        replay := replay[n..];
        return n, None;
      }
      assert Stream() == conn.Remaining();
      n, err := conn.Read(b, 0);
      assert Stream() == conn.Remaining();
    }
  }

  /** One read into a buffer, and what it brought: the bytes are off the front of the stream. */
  method ReadChunk(pre: PeekConn, b: array<byte>) returns (chunk: bytes, err: Option<ReadError>)
    requires pre.Valid()
    modifies pre, pre.conn, b
    ensures pre.Valid() && pre.conn.written == old(pre.conn.written) && pre.conn.room == old(pre.conn.room)
    ensures old(pre.Stream()) == chunk + pre.Stream()
    ensures err.Some? ==> pre.Stream() == [] && err.value == pre.conn.final
    ensures err.None? && b.Length > 0 ==>
              |pre.Stream()| + |pre.conn.queue| < old(|pre.Stream()| + |pre.conn.queue|)
  {
    ghost var left, was := pre.Stream(), b[..];
    var n;
    n, err := pre.Read(b);
    FrontOf(b[..], was, left[..n]);
    chunk := b[..n];
    assert left == left[..n] + left[n..];
  }

  datatype Route = Dropped | ToDecoy | ToTls

  predicate IsMagicSNI(magic: seq<bytes>, sni: bytes)
  {
    |magic| == 0 || sni in magic
  }

  function RouteOf(magic: seq<bytes>, k: Peek): Route
  {
    if k.err.Some? && |k.raw| == 0 then Dropped
    else if !IsMagicSNI(magic, k.sni) then ToDecoy
    else ToTls
  }

  /** `handleConn` up to the point where the decoy forwarder or the TLS server takes over.
      Peeking goes through a `PeekConn` with nothing to replay, which is its connection. */
  method HandleConn(c: Pipe, magic: seq<bytes>) returns (route: Route, pre: PeekConn)
    requires c.Valid()
    modifies c
    ensures pre.Valid() && pre.conn == c && fresh(pre)
    ensures var k := Peeked(old(c.Remaining()), c.final);
            route == RouteOf(magic, k) && (route != Dropped ==> pre.Stream() == k.raw + k.rest)
  {
    pre := new PeekConn(c);
    var sni, raw, err := PeekClientHelloSNI(pre.conn);
    if err.Some? && |raw| == 0 {
      return Dropped, pre;
    }
    pre.replay := raw;
    if !IsMagicSNI(magic, sni) {
      return ToDecoy, pre;
    }
    return ToTls, pre;
  }

  /** The copy from client to decoy on its own, while nothing closes its connections: the decoy
      gets the stream, in order, as far as its link goes. */
  method CopyToDecoy(pre: PeekConn, decoy: Pipe) returns (ok: bool)
    requires pre.Valid() && decoy.Valid() && decoy != pre.conn
    modifies pre, pre.conn, decoy
    ensures pre.Valid() && decoy.Valid()
    ensures decoy.written == old(decoy.written) + Clip(old(pre.Stream()), old(decoy.room))
    ensures ok <==> Fits(old(pre.Stream()), old(decoy.room))
    ensures ok ==> pre.Stream() == []
  {
    var buf := new byte[32768](_ => 0);
    var err: Option<ReadError> := None;
    ok := true;
    ghost var start, moved, room := decoy.written, [], decoy.room;
    while ok && err.None?
      invariant pre.Valid() && decoy.Valid() && moved + pre.Stream() == old(pre.Stream())
      invariant decoy.written == start + Clip(moved, room) && decoy.room == RoomAfter(room, moved)
      invariant ok <==> Fits(moved, room)
      invariant err.Some? ==> pre.Stream() == []
      decreases err.None?, |pre.Stream()| + |pre.conn.queue|
    {
      ok, err, moved := ForwardChunk(pre, decoy, buf, start, moved, room);
    }
    ClipAppend(moved, pre.Stream(), room);
  }

  /** One turn of that copy. */
  method ForwardChunk(pre: PeekConn, decoy: Pipe, buf: array<byte>,
                      ghost start: bytes, ghost moved: bytes, ghost room: Option<nat>)
    returns (ok: bool, err: Option<ReadError>, ghost moved': bytes)
    requires pre.Valid() && decoy.Valid() && decoy != pre.conn && buf.Length > 0
    requires decoy.written == start + Clip(moved, room) && decoy.room == RoomAfter(room, moved) && Fits(moved, room)
    modifies pre, pre.conn, decoy, buf
    ensures pre.Valid() && decoy.Valid() && moved' + pre.Stream() == moved + old(pre.Stream())
    ensures decoy.written == start + Clip(moved', room) && decoy.room == RoomAfter(room, moved')
    ensures ok <==> Fits(moved', room)
    ensures err.Some? ==> pre.Stream() == []
    ensures err.None? ==> |pre.Stream()| + |pre.conn.queue| < old(|pre.Stream()| + |pre.conn.queue|)
  {
    ok := true;
    var chunk;
    chunk, err := ReadChunk(pre, buf);
    moved' := moved + chunk;
    Regroup(moved, chunk, pre.Stream());
    ClipAppend(moved, chunk, room);
    if |chunk| > 0 {
      Regroup(start, Clip(moved, room), Clip(chunk, decoy.room));
      ok := decoy.Write(chunk);
    } else {
      assert moved' == moved;
    }
  }

  /** Reads with buffers of any sizes, as the TLS server makes them, until one reports an error:
      what they bring is the front of the stream, and all of it if one does. */
  method ReadInSizes(pre: PeekConn, sizes: seq<nat>) returns (seen: bytes, err: Option<ReadError>)
    requires pre.Valid()
    modifies pre, pre.conn
    ensures pre.Valid() && seen + pre.Stream() == old(pre.Stream())
    ensures err.Some? ==> seen == old(pre.Stream()) && err.value == pre.conn.final
  {
    seen, err := [], None;
    for i := 0 to |sizes|
      invariant pre.Valid() && seen + pre.Stream() == old(pre.Stream()) && err.None?
    {
      var b := new byte[sizes[i]](_ => 0);
      var chunk;
      chunk, err := ReadChunk(pre, b);
      Regroup(seen, chunk, pre.Stream());
      seen := seen + chunk;
      if err.Some? {
        assert seen + [] == seen;
        return;
      }
    }
  }

  /** How many bytes the announced record body is short of. */
  function MissingBody(s: bytes): nat
  {
    if |s| < 5 || s[0] != 0x16 then 0 else
    var n := FromBE16(s[3..5]);
    if n < 4 || n > 16384 || |s| >= 5 + n then 0 else 5 + n - |s|
  }

  /** Only a connection that ends within five bytes is dropped. Otherwise replay restores the
      inbound stream, followed by one zero byte for every byte the record body was short of:
      so it is the inbound stream exactly when the body, if one was read, was complete. */
  lemma ReplayIsTheStream(s: bytes, final: ReadError, magic: seq<bytes>)
    ensures var k := Peeked(s, final);
            && (RouteOf(magic, k) == Dropped <==> |s| < 5)
            && (|s| >= 5 ==> k.raw + k.rest == s + Zeros(MissingBody(s)))
            && (|s| >= 5 ==> (k.raw + k.rest == s <==> MissingBody(s) == 0))
  {
    var k := Peeked(s, final);
    if |s| >= 5 {
      assert s[..5] + s[5..] == s;
      var n := FromBE16(s[3..5]);
      if |s| >= 5 + n {
        assert s[..5 + n] + s[5 + n..] == s;
      }
      assert k.raw + k.rest == s + Zeros(MissingBody(s));
    }
  }

  /** The stream opens with one record of the grammar, of 4 to 16384 bytes, whose name is this. */
  ghost predicate OpensWithName(s: bytes, name: bytes)
  {
    exists version, m, raw, after :: s == raw + after && DerivesRecord(version, m, raw, name)
  }

  /** Anything that is not such a record has the empty name. */
  lemma NameExactly(s: bytes, final: ReadError, name: bytes)
    ensures var k := Peeked(s, final);
            && (k.err.None? ==> (OpensWithName(s, name) <==> k.sni == name))
            && (k.err.Some? ==> !OpensWithName(s, name) && k.sni == [])
  {
    var k := Peeked(s, final);
    PeekIsTheGrammar(s, final, k.sni, k.raw, k.rest);
    forall version, m, raw, after | s == raw + after && DerivesRecord(version, m, raw, name)
      ensures k.err.None? && k.sni == name
    {
      PeekIsTheGrammar(s, final, name, raw, after);
    }
  }

  /** The route of every stream: under 5 bytes it is dropped; otherwise it goes to the TLS server exactly
      when no names are configured, or it opens with a record of the grammar whose name is magic, or with
      no such record while the empty name is magic; and to the decoy in every other case. */
  lemma RouteExactly(s: bytes, final: ReadError, magic: seq<bytes>)
    ensures var route := RouteOf(magic, Peeked(s, final));
            && (route == Dropped <==> |s| < 5)
            && (route == ToTls <==>
                |s| >= 5 && (|| magic == []
                             || (exists name :: OpensWithName(s, name) && name in magic)
                             || ([] in magic && forall name :: !OpensWithName(s, name))))
  {
    var k := Peeked(s, final);
    ReplayIsTheStream(s, final, magic);
    forall name
      ensures k.err.None? ==> (OpensWithName(s, name) <==> k.sni == name)
      ensures k.err.Some? ==> !OpensWithName(s, name) && k.sni == []
    {
      NameExactly(s, final, name);
    }
    if k.err.None? {
      assert OpensWithName(s, k.sni);
    }
  }

  /** A well-formed ClientHello goes to the TLS server exactly when its name, empty if it has none,
      is magic or no names are configured, and either receiver sees every byte of the connection. */
  lemma ClientHelloIsRoutedByName(version: bytes, m: Message, after: bytes, final: ReadError, magic: seq<bytes>)
    requires |version| == 2 && ValidMessage(m) && 4 <= |MessageBytes(m)| <= 16384
    ensures var s := Record(version, MessageBytes(m)) + after;
            var k := Peeked(s, final);
            && RouteOf(magic, k) ==
               (if magic == [] || NameOf(Meaning(m.hello.block)) in magic then ToTls else ToDecoy)
            && k.raw + k.rest == s
  {
    SerialisedHelloIsFound(version, m, after, final);
  }
}
