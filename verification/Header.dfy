/** The request header that opens every tunnel stream. */
module Header {
  import opened Wrappers
  import opened Bytes
  import opened Pipe

  const HEADER_VERSION: byte := 1

  const CMD_CONNECT: byte := 1
  const CMD_UDP_ASSOCIATE: byte := 2
  const CMD_PING: byte := 3
  const CMD_BIND: byte := 4

  const ATYP_IPV4: byte := 1
  const ATYP_DOMAIN: byte := 3
  const ATYP_IPV6: byte := 4

  const TOKEN_LEN: nat := 16
  const MAX_HEADER_LEN: nat := 277

  type Token = t: bytes | |t| == TOKEN_LEN witness seq(TOKEN_LEN, _ => 0)

  type uint16 = x: int | 0 <= x < 0x1_0000

  datatype Header = Header(version: byte, token: Token, cmd: byte, atyp: byte, addr: bytes, port: uint16)

  datatype HeaderError = BadVersion | BadCmd | BadAtyp | AddrTooLong | ReadFailed(error: ReadError)

  predicate ValidCmd(c: byte)
  {
    c == CMD_CONNECT || c == CMD_UDP_ASSOCIATE || c == CMD_PING || c == CMD_BIND
  }

  function EncodeAddr(atyp: byte, addr: bytes): Result<bytes, HeaderError>
  {
    if atyp == ATYP_IPV4 then (if |addr| != 4 then Err(BadAtyp) else Ok(addr))
    else if atyp == ATYP_IPV6 then (if |addr| != 16 then Err(BadAtyp) else Ok(addr))
    else if atyp == ATYP_DOMAIN then
      (if |addr| == 0 || |addr| > 255 then Err(AddrTooLong) else Ok([|addr|] + addr))
    else Err(BadAtyp)
  }

  function Encode(h: Header): Result<bytes, HeaderError>
  {
    if !ValidCmd(h.cmd) then Err(BadCmd) else
    var addr := EncodeAddr(h.atyp, h.addr);
    if addr.Err? then Err(addr.error) else
    var out := [h.version] + h.token + [h.cmd, h.atyp] + addr.value + BE16(h.port);
    if |out| > MAX_HEADER_LEN then Err(AddrTooLong) else Ok(out)
  }

  function DecodedAddr(s: bytes, atyp: byte, final: ReadError): Parsed<Result<bytes, HeaderError>>
  {
    if atyp == ATYP_IPV4 || atyp == ATYP_IPV6 then
      var a := Taken(s, if atyp == ATYP_IPV4 then 4 else 16, final);
      Parsed(if a.value.Err? then Err(ReadFailed(a.value.error)) else Ok(a.value.value), a.rest)
    else if atyp == ATYP_DOMAIN then
      var l := Taken(s, 1, final);
      if l.value.Err? then Parsed(Err(ReadFailed(l.value.error)), l.rest) else
      var n := l.value.value[0];
      if n == 0 then Parsed(Err(BadAtyp), l.rest) else
      var a := Taken(l.rest, n, final);
      Parsed(if a.value.Err? then Err(ReadFailed(a.value.error)) else Ok(a.value.value), a.rest)
    else Parsed(Err(BadAtyp), s)
  }

  /** What `Decode` makes of a stream, and what it leaves of it. */
  function Decoded(s: bytes, final: ReadError): Parsed<Result<Header, HeaderError>>
  {
    var p := Taken(s, 1 + TOKEN_LEN + 1 + 1, final);
    if p.value.Err? then Parsed(Err(ReadFailed(p.value.error)), p.rest) else
    var prefix := p.value.value;
    if prefix[0] != HEADER_VERSION then Parsed(Err(BadVersion), p.rest) else
    if !ValidCmd(prefix[17]) then Parsed(Err(BadCmd), p.rest) else
    var a := DecodedAddr(p.rest, prefix[18], final);
    if a.value.Err? then Parsed(Err(a.value.error), a.rest) else
    var b := Taken(a.rest, 2, final);
    if b.value.Err? then Parsed(Err(ReadFailed(b.value.error)), b.rest) else
    Parsed(Ok(Header(prefix[0], prefix[1..17], prefix[17], prefix[18], a.value.value, FromBE16(b.value.value))), b.rest)
  }

  method DecodeAddr(r: Pipe, atyp: byte) returns (res: Result<bytes, HeaderError>)
    requires r.Valid()
    modifies r
    ensures r.Valid() && r.written == old(r.written) && r.room == old(r.room)
    ensures Parsed(res, r.Remaining()) == DecodedAddr(old(r.Remaining()), atyp, r.final)
  {
    var n: nat;
    if atyp == ATYP_IPV4 {
      n := 4;
    } else if atyp == ATYP_IPV6 {
      n := 16;
    } else if atyp == ATYP_DOMAIN {
      var lenBuf := Take(r, 1);
      if lenBuf.Err? {
        return Err(ReadFailed(lenBuf.error));
      }
      n := lenBuf.value[0];
      if n == 0 {
        return Err(BadAtyp);
      }
    } else {
      return Err(BadAtyp);
    }
    var buf := Take(r, n);
    if buf.Err? {
      return Err(ReadFailed(buf.error));
    }
    return Ok(buf.value);
  }

  method Decode(r: Pipe) returns (res: Result<Header, HeaderError>)
    requires r.Valid()
    modifies r
    ensures r.Valid() && r.written == old(r.written) && r.room == old(r.room)
    ensures Parsed(res, r.Remaining()) == Decoded(old(r.Remaining()), r.final)
  {
    var got := Take(r, 1 + TOKEN_LEN + 1 + 1);
    if got.Err? {
      return Err(ReadFailed(got.error));
    }
    var prefix := got.value;
    if prefix[0] != HEADER_VERSION {
      return Err(BadVersion);
    }
    if !ValidCmd(prefix[1 + TOKEN_LEN]) {
      return Err(BadCmd);
    }
    var addr := DecodeAddr(r, prefix[1 + TOKEN_LEN + 1]);
    if addr.Err? {
      return Err(addr.error);
    }
    var portBuf := Take(r, 2);
    if portBuf.Err? {
      return Err(ReadFailed(portBuf.error));
    }
    return Ok(Header(prefix[0], prefix[1..1 + TOKEN_LEN], prefix[1 + TOKEN_LEN], prefix[1 + TOKEN_LEN + 1],
                     addr.value, FromBE16(portBuf.value)));
  }

  /** Encoding fails on a bad command or an address that does not fit its type, never on
      the length guard; the lengths are exactly 25, 37 and 22 + n. */
  lemma EncodedLength(h: Header)
    ensures Encode(h).Ok? <==>
            ValidCmd(h.cmd) && (|| (h.atyp == ATYP_IPV4 && |h.addr| == 4)
                                || (h.atyp == ATYP_IPV6 && |h.addr| == 16)
                                || (h.atyp == ATYP_DOMAIN && 1 <= |h.addr| <= 255))
    ensures Encode(h).Ok? ==>
            |Encode(h).value| == (if h.atyp == ATYP_IPV4 then 25 else if h.atyp == ATYP_IPV6 then 37
                                  else 22 + |h.addr|) <= MAX_HEADER_LEN
    ensures Encode(h).Err? && Encode(h).error == AddrTooLong ==> h.atyp == ATYP_DOMAIN && !(1 <= |h.addr| <= 255)
  {
  }

  /** Encoding fails in one of three ways, each on a condition of its own. */
  lemma EncodeErrorExactly(h: Header)
    ensures var r := Encode(h);
            && (r == Err(BadCmd) <==> !(1 <= h.cmd <= 4))
            && (r == Err(AddrTooLong) <==> 1 <= h.cmd <= 4 && h.atyp == 3 && !(1 <= |h.addr| <= 255))
            && (r == Err(BadAtyp) <==>
                1 <= h.cmd <= 4 && h.atyp != 3 && !(h.atyp == 1 && |h.addr| == 4) && !(h.atyp == 4 && |h.addr| == 16))
            && (r.Err? ==> r.error in {BadCmd, AddrTooLong, BadAtyp})
  {
  }

  /** An encoding, position by position. */
  lemma EncodingOnTheWire(h: Header)
    requires Encode(h).Ok?
    ensures var e := Encode(h).value;
            var at := if h.atyp == 3 then 20 else 19;
            && |e| == at + |h.addr| + 2
            && e[0] == h.version && e[1..17] == h.token && e[17] == h.cmd && e[18] == h.atyp
            && (h.atyp == 3 ==> e[19] == |h.addr|)
            && e[at..at + |h.addr|] == h.addr
            && e[|e| - 2] == h.port / 256 && e[|e| - 1] == h.port % 256
            && 1 <= h.cmd <= 4 && h.atyp in {1, 3, 4}
  {
    var e, addr := Encode(h).value, EncodeAddr(h.atyp, h.addr).value;
    var front := [h.version] + h.token + [h.cmd, h.atyp];
    assert e == front + addr + BE16(h.port);
    assert e[..19] == front && e[19..19 + |addr|] == addr;
    assert e[1..17] == front[1..17] == h.token;
    if h.atyp == 3 {
      assert e[20..20 + |h.addr|] == addr[1..];
    }
  }

  predicate GoodStart(s: bytes)
  {
    |s| >= 19 && s[0] == 1 && 1 <= s[17] <= 4
  }

  /** How long the header that opens the stream is, as far as its bytes tell. */
  function Announced(s: bytes): nat
    requires GoodStart(s) && s[18] in {1, 3, 4}
  {
    if s[18] == 1 then 25 else if s[18] == 4 then 37 else if |s| < 20 then 20 else 22 + (s[19] as int)
  }

  /** What the decoder refuses, and on which bytes: in every other case there is a header. */
  lemma DecodeErrorExactly(s: bytes, final: ReadError)
    ensures var d := Decoded(s, final);
            && (d.value == Err(BadVersion) <==> |s| >= 19 && s[0] != 1)
            && (d.value == Err(BadCmd) <==> |s| >= 19 && s[0] == 1 && !(1 <= s[17] <= 4))
            && (d.value == Err(BadAtyp) <==>
                GoodStart(s) && (s[18] !in {1, 3, 4} || (s[18] == 3 && |s| >= 20 && s[19] == 0)))
            && (d.value.Err? && d.value.error.ReadFailed? <==>
                || |s| < 19
                || (GoodStart(s) && s[18] in {1, 3, 4} && !(s[18] == 3 && |s| >= 20 && s[19] == 0)
                    && |s| < Announced(s)))
            && d.value != Err(AddrTooLong)
            && (d.value in {Err(BadVersion), Err(BadCmd)} ==> d.rest == s[19..])
            && (d.value.Err? && d.value.error.ReadFailed? ==> d.rest == [])
  {
  }

  lemma AddrRoundTrip(s: bytes, atyp: byte, final: ReadError, addr: bytes, rest: bytes)
    ensures DecodedAddr(s, atyp, final) == Parsed(Ok(addr), rest) <==>
            EncodeAddr(atyp, addr).Ok? && s == EncodeAddr(atyp, addr).value + rest
  {
    if atyp == ATYP_DOMAIN {
      LengthSplit(s, addr, rest);
      if |s| >= 1 {
        TakenExactly(s[1..], s[0], final, addr, rest);
      }
    } else {
      TakenExactly(s, if atyp == ATYP_IPV4 then 4 else 16, final, addr, rest);
    }
  }

  lemma LengthSplit(s: bytes, addr: bytes, rest: bytes)
    ensures |addr| <= 255 ==>
              (s == [|addr|] + addr + rest <==> |s| >= 1 && s[0] == |addr| && s[1..] == addr + rest)
  {
    if |s| >= 1 {
      assert s == [s[0]] + s[1..];
    }
    if |addr| <= 255 {
      Regroup([|addr|], addr, rest);
      CutAt([|addr|], addr + rest, s);
    }
  }

  /** Decoding succeeds exactly on the version 1 encodings, and consumes no byte more. */
  lemma DecodeInvertsEncode(s: bytes, final: ReadError, h: Header, rest: bytes)
    ensures Decoded(s, final) == Parsed(Ok(h), rest) <==>
            h.version == HEADER_VERSION && Encode(h).Ok? && s == Encode(h).value + rest
  {
    if Decoded(s, final) == Parsed(Ok(h), rest) {
      DecodedIsEncoding(s, final, h, rest);
    }
    if h.version == HEADER_VERSION && Encode(h).Ok? && s == Encode(h).value + rest {
      EncodingDecodes(final, h, rest);
    }
  }

  lemma DecodedIsEncoding(s: bytes, final: ReadError, h: Header, rest: bytes)
    requires Decoded(s, final) == Parsed(Ok(h), rest)
    ensures h.version == HEADER_VERSION && Encode(h).Ok? && s == Encode(h).value + rest
  {
    var prefix, tail := s[..19], s[19..];
    var a := DecodedAddr(tail, prefix[18], final);
    AddrRoundTrip(tail, h.atyp, final, h.addr, a.rest);
    PortRead(a.rest, h.port, rest);
    EncodedLength(h);
    assert prefix == [h.version] + h.token + [h.cmd, h.atyp];
    Joined(s, prefix, EncodeAddr(h.atyp, h.addr).value, BE16(h.port), rest);
  }

  lemma PortRead(s: bytes, port: uint16, rest: bytes)
    requires |s| >= 2 && port == FromBE16(s[..2]) && rest == s[2..]
    ensures s == BE16(port) + rest
  {
    BE16Inverse(port, s[..2]);
  }

  lemma Joined(s: bytes, prefix: bytes, addr: bytes, port: bytes, rest: bytes)
    requires s == prefix + (addr + (port + rest))
    ensures s == prefix + addr + port + rest
  {
  }

  lemma EncodingDecodes(final: ReadError, h: Header, rest: bytes)
    requires h.version == HEADER_VERSION && Encode(h).Ok?
    ensures Decoded(Encode(h).value + rest, final) == Parsed(Ok(h), rest)
  {
    var addr := EncodeAddr(h.atyp, h.addr).value;
    var s := Encode(h).value + rest;
    var prefix := [h.version] + h.token + [h.cmd, h.atyp];
    assert s == prefix + (addr + (BE16(h.port) + rest));
    assert s[..19] == prefix && s[19..] == addr + (BE16(h.port) + rest);
    AddrRoundTrip(s[19..], h.atyp, final, h.addr, BE16(h.port) + rest);
    BE16Inverse(h.port, BE16(h.port));
    assert (BE16(h.port) + rest)[..2] == BE16(h.port) && (BE16(h.port) + rest)[2..] == rest;
    assert prefix[1..17] == h.token;
  }

  /** Encodings are uniquely readable off the front of any stream, so none is a proper prefix
      of another and no two headers share one. */
  lemma EncodingsArePrefixFree(g: Header, h: Header, afterG: bytes, afterH: bytes)
    requires Encode(g).Ok? && Encode(h).Ok?
    requires Encode(g).value + afterG == Encode(h).value + afterH
    ensures g == h && afterG == afterH
  {
    assert (Encode(g).value + afterG)[0] == g.version && (Encode(h).value + afterH)[0] == h.version;
    Versioned(g, afterG);
    Versioned(h, afterH);
    EncodingDecodes(Eof, g.(version := HEADER_VERSION), afterG);
    EncodingDecodes(Eof, h.(version := HEADER_VERSION), afterH);
  }

  lemma Versioned(h: Header, rest: bytes)
    requires Encode(h).Ok?
    ensures var h1 := h.(version := HEADER_VERSION);
            Encode(h1).Ok? && Encode(h1).value + rest == (Encode(h).value + rest)[0 := HEADER_VERSION]
  {
  }
}
