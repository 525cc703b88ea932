/**
 * Both ends of a tunnel stream, above the transport.
 *
 * HMAC-SHA256 is a function of key and message. Whether the header comes within its deadline
 * and whether the upstream dial succeeds are arguments; the context is left out.
 */
module Tunnel {
  import opened Wrappers
  import opened Bytes
  import opened Pipe
  import Noise
  import opened Header

  type Mac = m: bytes | |m| == 32 witness seq(32, _ => 0)

  type Hmac = (string, bytes) -> Mac

  function DeriveToken(hmac: Hmac, uuid: string, channel: bytes): Token
  {
    hmac(uuid, channel)[..TOKEN_LEN]
  }

  /** The token is the front of the MAC of the channel under some accepted UUID. */
  predicate TokenOk(hmac: Hmac, uuids: seq<string>, got: Token, channel: bytes)
  {
    exists u :: u in uuids && got == hmac(u, channel)[..16]
  }

  method TokenValid(hmac: Hmac, uuids: seq<string>, got: Token, channel: bytes) returns (ok: bool)
    ensures ok <==> TokenOk(hmac, uuids, got, channel)
  {
    for i := 0 to |uuids|
      invariant forall j | 0 <= j < i :: got != DeriveToken(hmac, uuids[j], channel)
    {
      if got == DeriveToken(hmac, uuids[i], channel) {
        return true;
      }
    }
    return false;
  }

  const PONG: bytes := [80, 79, 78, 71]

  datatype Outcome =
    | BadHeader(error: HeaderError)
    | TimedOut
    | TokenRejected
    | Ponged
    | Unsupported
    | DialFailed
    | Relayed(header: Header)

  /** What the server makes of a client stream: the outcome, and the bytes it sends upstream and back. */
  datatype Served = Served(outcome: Outcome, upstream: bytes, back: bytes)

  ghost function Serves(hmac: Hmac, uuids: seq<string>, channel: bytes, s: bytes, final: ReadError,
                        inTime: bool, dials: bool, reply: bytes): Served
  {
    var d := Decoded(s, final);
    if !inTime then Served(TimedOut, [], []) else
    if d.value.Err? then Served(BadHeader(d.value.error), [], []) else
    var h := d.value.value;
    if !TokenOk(hmac, uuids, h.token, channel) then Served(TokenRejected, [], [])
    else if h.cmd == CMD_PING then Served(Ponged, [], PONG)
    else if h.cmd != CMD_CONNECT then Served(Unsupported, [], [])
    else if !dials then Served(DialFailed, [], [])
    else Served(Relayed(h), d.rest, reply)
  }

  /** `handleConnect` once the upstream is dialled: the two copies share no state, and the server
      waits for both. A link that breaks takes what it can. */
  method Relay(ts: Pipe, out: Pipe, up: Pipe, reply: Pipe)
    requires ts.Valid() && out.Valid() && up.Valid() && reply.Valid()
    requires ts != out && ts != up && ts != reply && out != up && out != reply && up != reply
    modifies ts, out, up, reply
    ensures ts.Valid() && out.Valid() && up.Valid()
    ensures up.written == old(up.written) + Clip(old(ts.Remaining()), old(up.room))
    ensures out.written == old(out.written) + Clip(old(reply.Remaining()), old(out.room))
    ensures out.Remaining() == old(out.Remaining()) + Clip(old(reply.Remaining()), old(out.room))
  {
    var sent := CopyAll(up, ts);
    var returned := CopyAll(out, reply);
  }

  /** `handle`. `up` carries bytes to the destination, `reply` those coming back from it, `out`
      those returned to the client. */
  method Handle(hmac: Hmac, uuids: seq<string>, channel: bytes, ts: Pipe, out: Pipe,
                inTime: bool, dials: bool, up: Pipe, reply: Pipe) returns (outcome: Outcome)
    requires ts.Valid() && out.Valid() && up.Valid() && reply.Valid()
    requires ts != out && ts != up && ts != reply && out != up && out != reply && up != reply
    modifies ts, out, up, reply
    ensures ts.Valid() && out.Valid() && up.Valid()
    ensures var served := Serves(hmac, uuids, channel, old(ts.Remaining()), ts.final,
                                 inTime, dials, old(reply.Remaining()));
            && outcome == served.outcome
            && up.written == old(up.written) + Clip(served.upstream, old(up.room))
            && out.written == old(out.written) + Clip(served.back, old(out.room))
            && out.Remaining() == old(out.Remaining()) + Clip(served.back, old(out.room))
  {
    NothingFits(up.room);
    NothingFits(out.room);
    var res := Decode(ts);
    if !inTime {
      return TimedOut;
    }
    if res.Err? {
      return BadHeader(res.error);
    }
    var h := res.value;
    var valid := TokenValid(hmac, uuids, h.token, channel);
    if !valid {
      return TokenRejected;
    }
    if h.cmd == CMD_CONNECT {
      if !dials {
        return DialFailed;
      }
      Relay(ts, out, up, reply);
      return Relayed(h);
    } else if h.cmd == CMD_PING {
      var ok := out.Write(PONG);
      return Ponged;
    }
    return Unsupported;
  }

  lemma NothingFits(room: Option<nat>)
    ensures Clip([], room) == []
    ensures forall s: bytes :: s + Clip([], room) == s
  {
  }

  datatype DialError = BadRequest(error: HeaderError) | WriteFailed

  /** `DialTunnel` once the transport has dialled: one message holding the header. */
  method DialTunnel(hmac: Hmac, uuid: string, channel: bytes, ts: Pipe, atyp: byte, addr: bytes, port: uint16)
    returns (err: Option<DialError>)
    requires ts.Valid()
    modifies ts
    ensures ts.Valid() && ts.delivered == old(ts.delivered)
    ensures var enc := Encode(ClientHeader(hmac, uuid, channel, atyp, addr, port));
            && err == (if enc.Err? then Some(BadRequest(enc.error))
                       else if Fits(enc.value, old(ts.room)) then None else Some(WriteFailed))
            && (enc.Err? ==> ts.Remaining() == old(ts.Remaining()) && ts.room == old(ts.room))
            && (enc.Ok? ==> ts.Remaining() == old(ts.Remaining()) + Clip(enc.value, old(ts.room))
                            && ts.room == RoomAfter(old(ts.room), enc.value))
  {
    var enc := Encode(ClientHeader(hmac, uuid, channel, atyp, addr, port));
    if enc.Err? {
      return Some(BadRequest(enc.error));
    }
    var ok := ts.Write(enc.value);
    err := if ok then None else Some(WriteFailed);
  }

  function ClientHeader(hmac: Hmac, uuid: string, channel: bytes, atyp: byte, addr: bytes, port: uint16): Header
  {
    Header(HEADER_VERSION, DeriveToken(hmac, uuid, channel), CMD_CONNECT, atyp, addr, port)
  }

  /** A frame, then a header, then payload, on one stream: the frame reader leaves exactly what
      follows the frame, and the server sends upstream exactly the payload, when both ends hold
      the same channel hash and the client's UUID is accepted. */
  lemma LayersConsumeExactly(hmac: Hmac, uuids: seq<string>, uuid: string, channel: bytes, msg1: bytes,
                             atyp: byte, addr: bytes, port: uint16, payload: bytes, final: ReadError, reply: bytes)
    requires 1 <= |msg1| <= Noise.MAX_FRAME && uuid in uuids
    requires Encode(ClientHeader(hmac, uuid, channel, atyp, addr, port)).Ok?
    ensures var h := ClientHeader(hmac, uuid, channel, atyp, addr, port);
            var afterFrame := Encode(h).value + payload;
            && Noise.Unframed(Noise.Frame(msg1) + Encode(h).value + payload, final) == Parsed(Ok(msg1), afterFrame)
            && Serves(hmac, uuids, channel, afterFrame, final, true, true, reply) == Served(Relayed(h), payload, reply)
  {
    var h := ClientHeader(hmac, uuid, channel, atyp, addr, port);
    var afterFrame := Encode(h).value + payload;
    assert Noise.Frame(msg1) + Encode(h).value + payload == Noise.Frame(msg1) + afterFrame;
    Noise.FrameRoundTrip(Noise.Frame(msg1) + afterFrame, final, msg1, afterFrame);
    EncodingDecodes(final, h, payload);
  }

  /** The other way about: whatever stream the server relays was a version 1 connect header
      carrying the token of an accepted UUID on this channel, and the rest went upstream. */
  lemma RelayedStreamsWereAuthenticated(hmac: Hmac, uuids: seq<string>, channel: bytes, s: bytes, final: ReadError,
                                        inTime: bool, dials: bool, reply: bytes,
                                        h: Header, upstream: bytes, back: bytes)
    ensures Serves(hmac, uuids, channel, s, final, inTime, dials, reply) == Served(Relayed(h), upstream, back) <==>
            && inTime && dials && back == reply
            && h.version == HEADER_VERSION && h.cmd == CMD_CONNECT && TokenOk(hmac, uuids, h.token, channel)
            && Encode(h).Ok? && s == Encode(h).value + upstream
  {
    DecodeInvertsEncode(s, final, h, upstream);
  }

  // ---- What each outcome says about the stream ----

  /** The stream opens with a version 1 header. */
  predicate Opens(s: bytes, h: Header, rest: bytes)
  {
    h.version == 1 && Encode(h).Ok? && s == Encode(h).value + rest
  }

  /** The stream opens with a request for one of these commands, by a client that is known, or is not. */
  ghost predicate Requests(hmac: Hmac, uuids: seq<string>, channel: bytes, s: bytes, known: bool, cmds: set<byte>)
  {
    exists h, rest :: Opens(s, h, rest) && h.cmd in cmds && TokenOk(hmac, uuids, h.token, channel) == known
  }

  lemma RequestIsTheDecoded(hmac: Hmac, uuids: seq<string>, channel: bytes, s: bytes, final: ReadError,
                            known: bool, cmds: set<byte>)
    ensures var d := Decoded(s, final);
            Requests(hmac, uuids, channel, s, known, cmds) <==>
            d.value.Ok? && d.value.value.cmd in cmds && TokenOk(hmac, uuids, d.value.value.token, channel) == known
  {
    var d := Decoded(s, final);
    if d.value.Ok? {
      DecodeInvertsEncode(s, final, d.value.value, d.rest);
      assert Opens(s, d.value.value, d.rest);
    }
    forall h, rest | Opens(s, h, rest) ensures d == Parsed(Ok(h), rest) {
      DecodeInvertsEncode(s, final, h, rest);
    }
  }

  /** Every outcome, by the stream: the token is looked at first, and only an accepted one gets a client
      an answer of any kind. */
  lemma OutcomeExactly(hmac: Hmac, uuids: seq<string>, channel: bytes, s: bytes, final: ReadError,
                       inTime: bool, dials: bool, reply: bytes)
    ensures var o := Serves(hmac, uuids, channel, s, final, inTime, dials, reply).outcome;
            && (o == TimedOut <==> !inTime)
            && (o.BadHeader? <==> inTime && forall h, rest :: !Opens(s, h, rest))
            && (o == TokenRejected <==> inTime && Requests(hmac, uuids, channel, s, false, {1, 2, 3, 4}))
            && (o == Ponged <==> inTime && Requests(hmac, uuids, channel, s, true, {3}))
            && (o == Unsupported <==> inTime && Requests(hmac, uuids, channel, s, true, {2, 4}))
            && (o == DialFailed <==> inTime && !dials && Requests(hmac, uuids, channel, s, true, {1}))
            && (o.Relayed? <==> inTime && dials && Requests(hmac, uuids, channel, s, true, {1}))
  {
    var d := Decoded(s, final);
    RequestIsTheDecoded(hmac, uuids, channel, s, final, false, {1, 2, 3, 4});
    RequestIsTheDecoded(hmac, uuids, channel, s, final, true, {3});
    RequestIsTheDecoded(hmac, uuids, channel, s, final, true, {2, 4});
    RequestIsTheDecoded(hmac, uuids, channel, s, final, true, {1});
    OpensExactly(s, final);
    if d.value.Ok? {
      EncodeErrorExactly(d.value.value);
      DecodeInvertsEncode(s, final, d.value.value, d.rest);
    }
  }

  lemma OpensExactly(s: bytes, final: ReadError)
    ensures Decoded(s, final).value.Ok? <==> exists h, rest :: Opens(s, h, rest)
  {
    var d := Decoded(s, final);
    if d.value.Ok? {
      DecodeInvertsEncode(s, final, d.value.value, d.rest);
      assert Opens(s, d.value.value, d.rest);
    }
    forall h, rest | Opens(s, h, rest) ensures d == Parsed(Ok(h), rest) {
      DecodeInvertsEncode(s, final, h, rest);
    }
  }

  /** What is sent for each outcome; without an accepted token, nothing in either direction. */
  lemma SentExactly(hmac: Hmac, uuids: seq<string>, channel: bytes, s: bytes, final: ReadError,
                    inTime: bool, dials: bool, reply: bytes)
    ensures var served := Serves(hmac, uuids, channel, s, final, inTime, dials, reply);
            && (served.outcome == Ponged ==> served.upstream == [] && served.back == [80, 79, 78, 71])
            && (served.outcome.Relayed? ==> Opens(s, served.outcome.header, served.upstream) && served.back == reply)
            && (!served.outcome.Ponged? && !served.outcome.Relayed? ==> served.upstream == [] && served.back == [])
            && (served.upstream != [] || served.back != [] ==> Requests(hmac, uuids, channel, s, true, {1, 3}))
  {
    var d := Decoded(s, final);
    RequestIsTheDecoded(hmac, uuids, channel, s, final, true, {1, 3});
    if d.value.Ok? {
      DecodeInvertsEncode(s, final, d.value.value, d.rest);
    }
  }

  /** The client's header on the wire: version 1, the token of the channel, command 1, the destination. */
  lemma ClientHeaderOnTheWire(hmac: Hmac, uuid: string, channel: bytes, atyp: byte, addr: bytes, port: uint16)
    requires Encode(ClientHeader(hmac, uuid, channel, atyp, addr, port)).Ok?
    ensures var e := Encode(ClientHeader(hmac, uuid, channel, atyp, addr, port)).value;
            && e[0] == 1 && e[1..17] == hmac(uuid, channel)[..16] && e[17] == 1 && e[18] == atyp
            && e[19..] == (if atyp == 3 then [|addr|] else []) + addr + [port / 256, port % 256]
  {
    var h := ClientHeader(hmac, uuid, channel, atyp, addr, port);
    EncodingOnTheWire(h);
    var e := Encode(h).value;
    var at := if atyp == 3 then 20 else 19;
    assert e[19..] == e[19..at] + e[at..at + |addr|] + e[at + |addr|..];
  }

  /** The application's writes, one message each. */
  method SendAll(w: Pipe, payload: seq<bytes>)
    requires w.Valid()
    modifies w
    ensures w.Valid() && w.Remaining() == old(w.Remaining()) + Clip(Concat(payload), old(w.room))
    decreases |payload|
  {
    if payload == [] {
      assert w.Remaining() == w.Remaining() + Clip([], w.room);
      return;
    }
    var first, others := payload[0], Concat(payload[1..]);
    ClipAppend(first, others, w.room);
    Regroup(w.Remaining(), Clip(first, w.room), Clip(others, RoomAfter(w.room, first)));
    var ok := w.Write(first);
    SendAll(w, payload[1..]);
  }

  /** The client's side after its handshake: header, then payload. */
  method ClientSends(hmac: Hmac, uuid: string, channel: bytes,
                     atyp: byte, addr: bytes, port: uint16, payload: seq<bytes>, c2s: Pipe)
    requires c2s.Valid() && Encode(ClientHeader(hmac, uuid, channel, atyp, addr, port)).Ok?
    modifies c2s
    ensures c2s.Valid()
    ensures var sent := Encode(ClientHeader(hmac, uuid, channel, atyp, addr, port)).value + Concat(payload);
            c2s.Remaining() == old(c2s.Remaining()) + Clip(sent, old(c2s.room))
  {
    ghost var enc := Encode(ClientHeader(hmac, uuid, channel, atyp, addr, port)).value;
    ghost var room := c2s.room;
    ClipAppend(enc, Concat(payload), room);
    Regroup(c2s.Remaining(), Clip(enc, room), Clip(Concat(payload), RoomAfter(room, enc)));
    var err := DialTunnel(hmac, uuid, channel, c2s, atyp, addr, port);
    if err.None? {
      SendAll(c2s, payload);
    }
  }

  /** Both handshakes over one connection, message by message as they happen: each side ends with
      the other's message, and nothing is left over in either direction. */
  method Handshakes(msg1: bytes, respond: bytes -> Option<bytes>, accepts: bytes -> bool, c2s: Pipe, s2c: Pipe)
    returns (atServer: Result<bytes, Noise.FrameError>, atClient: Result<bytes, Noise.FrameError>)
    requires c2s != s2c && c2s.Valid() && s2c.Valid() && c2s.Remaining() == [] && s2c.Remaining() == []
    requires c2s.room.None? && s2c.room.None?
    requires 1 <= |msg1| <= Noise.MAX_FRAME
    requires respond(msg1).Some? && 1 <= |respond(msg1).value| <= Noise.MAX_FRAME && accepts(respond(msg1).value)
    modifies c2s, s2c
    ensures c2s.Valid() && s2c.Valid() && c2s.Remaining() == [] && s2c.Remaining() == []
    ensures c2s.room.None? && s2c.room.None?
    ensures atServer == Ok(msg1) && atClient == Ok(respond(msg1).value)
  {
    ghost var reply := respond(msg1).value;
    var err := Noise.WriteFrame(c2s, msg1);
    Noise.FrameRoundTrip(c2s.Remaining(), c2s.final, msg1, []);
    assert Noise.Frame(msg1) + [] == Noise.Frame(msg1);
    atServer := Noise.ServerHandshake(c2s, s2c, respond);
    Noise.FrameRoundTrip(s2c.Remaining(), s2c.final, reply, []);
    assert Noise.Frame(reply) + [] == Noise.Frame(reply);
    atClient := Noise.ReadAnswer(s2c, accepts);
  }

  /** After the handshakes, when both ends hold one channel hash. */
  method Exchange(hmac: Hmac, uuids: seq<string>, uuid: string, channel: bytes,
                  atyp: byte, addr: bytes, port: uint16, payload: seq<bytes>,
                  c2s: Pipe, s2c: Pipe, up: Pipe, reply: Pipe) returns (outcome: Outcome)
    requires c2s.Valid() && s2c.Valid() && up.Valid() && reply.Valid()
    requires c2s != s2c && c2s != up && c2s != reply && s2c != up && s2c != reply && up != reply
    requires c2s.Remaining() == [] && s2c.Remaining() == []
    requires c2s.room.None? && s2c.room.None? && up.room.None?
    requires uuid in uuids && Encode(ClientHeader(hmac, uuid, channel, atyp, addr, port)).Ok?
    modifies c2s, s2c, up, reply
    ensures outcome == Relayed(ClientHeader(hmac, uuid, channel, atyp, addr, port))
    ensures up.Valid() && up.written == old(up.written) + Concat(payload)
    ensures s2c.Valid() && s2c.Remaining() == old(reply.Remaining())
  {
    ClientSends(hmac, uuid, channel, atyp, addr, port, payload, c2s);
    ghost var h := ClientHeader(hmac, uuid, channel, atyp, addr, port);
    RelayedStreamsWereAuthenticated(hmac, uuids, channel, c2s.Remaining(), c2s.final, true, true,
                                    reply.Remaining(), h, Concat(payload), reply.Remaining());
    outcome := Handle(hmac, uuids, channel, c2s, s2c, true, true, up, reply);
  }

  /** A whole session over one connection on which no write fails. Each end computes the channel
      hash from the two messages it has seen. Whatever the engine answers and however the payload
      is cut into writes, the server relays the client's header, the destination receives exactly
      the payload, and what the client has left to read is exactly the destination's answer. */
  method Session(hmac: Hmac, uuids: seq<string>, uuid: string, transcript: (bytes, bytes) -> bytes,
                 msg1: bytes, respond: bytes -> Option<bytes>, accepts: bytes -> bool,
                 atyp: byte, addr: bytes, port: uint16, payload: seq<bytes>,
                 c2s: Pipe, s2c: Pipe, up: Pipe, reply: Pipe)
    returns (outcome: Outcome, atClient: Result<bytes, Noise.FrameError>)
    requires c2s.Valid() && s2c.Valid() && up.Valid() && reply.Valid()
    requires c2s != s2c && c2s != up && c2s != reply && s2c != up && s2c != reply && up != reply
    requires c2s.Remaining() == [] && s2c.Remaining() == []
    requires c2s.room.None? && s2c.room.None? && up.room.None?
    requires 1 <= |msg1| <= Noise.MAX_FRAME && uuid in uuids
    requires respond(msg1).Some? && 1 <= |respond(msg1).value| <= Noise.MAX_FRAME && accepts(respond(msg1).value)
    requires Encode(ClientHeader(hmac, uuid, transcript(msg1, respond(msg1).value), atyp, addr, port)).Ok?
    modifies c2s, s2c, up, reply
    ensures atClient == Ok(respond(msg1).value)
    ensures outcome == Relayed(ClientHeader(hmac, uuid, transcript(msg1, respond(msg1).value), atyp, addr, port))
    ensures up.Valid() && up.written == old(up.written) + Concat(payload)
    ensures s2c.Valid() && s2c.Remaining() == old(reply.Remaining())
  {
    var atServer;
    atServer, atClient := Handshakes(msg1, respond, accepts, c2s, s2c);
    var clientChannel := transcript(msg1, atClient.value);
    var serverChannel := transcript(atServer.value, respond(atServer.value).value);
    assert serverChannel == clientChannel;
    outcome := Exchange(hmac, uuids, uuid, clientChannel, atyp, addr, port, payload, c2s, s2c, up, reply);
  }
}
