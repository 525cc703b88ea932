/**
 * Peeking the server name out of a TLS ClientHello.
 *
 * `ParseBody` is the parser as a function of the record body, each step taking a piece off
 * the front of what is left; `PeekClientHelloSNI` is the cursor-based code proved against it.
 */
module Sni {
  import opened Wrappers
  import opened Bytes
  import opened Pipe

  datatype SniError =
    | ReadFailed(error: ReadError)
    | NotHandshake
    | BadRecordLength
    | NotClientHello
    | HandshakeOutOfBounds
    | ShortHello
    | BadSessionId
    | BadSuitesLength
    | BadSuites
    | BadCompressionLength
    | BadCompression
    | BadExtensionsLength
    | BadExtension

  /** `Unnamed` is the source's empty name without an error. */
  datatype Parse = Named(name: bytes) | Unnamed | Malformed(error: SniError)

  datatype Vector = NoVector | Vector(body: bytes, rest: bytes)

  /** A vector behind a one-byte length. */
  function Vector8(s: bytes): Vector
  {
    if |s| < 1 || 1 + s[0] > |s| then NoVector else Vector(s[1..1 + s[0]], s[1 + s[0]..])
  }

  /** A vector behind a two-byte length. */
  function Vector16(s: bytes): Vector
  {
    if |s| < 2 || 2 + FromBE16(s[..2]) > |s| then NoVector
    else Vector(s[2..2 + FromBE16(s[..2])], s[2 + FromBE16(s[..2])..])
  }

  function ServerName(data: bytes): Parse
  {
    var list := Vector16(data);
    if list.NoVector? || |list.body| < 5 || list.body[0] != 0 then Unnamed else
    var name := Vector16(list.body[1..]);
    if name.NoVector? then Unnamed else Named(name.body)
  }

  function Walk(exts: bytes): Parse
    decreases |exts|
  {
    if |exts| < 4 then Unnamed else
    var data := Vector16(exts[2..]);
    if data.NoVector? then Malformed(BadExtension)
    else if FromBE16(exts[..2]) == 0 then ServerName(data.body)
    else Walk(data.rest)
  }

  function ParseExtensions(s: bytes): Parse
  {
    if |s| < 2 then Unnamed else
    var exts := Vector16(s);
    if exts.NoVector? then Malformed(BadExtensionsLength) else Walk(exts.body)
  }

  // What is left of a ClientHello behind each of its fields.

  function AfterSessionId(hs: bytes): Result<bytes, SniError>
  {
    if |hs| < 2 + 32 + 1 then Err(ShortHello) else
    var sid := Vector8(hs[34..]);
    if sid.NoVector? then Err(BadSessionId) else Ok(sid.rest)
  }

  function AfterSuites(s: bytes): Result<bytes, SniError>
  {
    if |s| < 2 then Err(BadSuitesLength) else
    var suites := Vector16(s);
    if suites.NoVector? then Err(BadSuites) else Ok(suites.rest)
  }

  function AfterCompressions(s: bytes): Result<bytes, SniError>
  {
    if |s| < 1 then Err(BadCompressionLength) else
    var comps := Vector8(s);
    if comps.NoVector? then Err(BadCompression) else Ok(comps.rest)
  }

  function ParseHello(hs: bytes): Parse
  {
    var a := AfterSessionId(hs);
    if a.Err? then Malformed(a.error) else
    var b := AfterSuites(a.value);
    if b.Err? then Malformed(b.error) else
    var c := AfterCompressions(b.value);
    if c.Err? then Malformed(c.error) else ParseExtensions(c.value)
  }

  function ParseBody(body: bytes): Parse
  {
    if |body| < 4 || body[0] != 1 then Malformed(NotClientHello) else
    var n := FromBE24(body[1..4]);
    if n + 4 > |body| then Malformed(HandshakeOutOfBounds) else
    ParseHello(body[4..4 + n])
  }

  function NameOf(p: Parse): bytes
  {
    if p.Named? then p.name else []
  }

  function ErrorOf(p: Parse): Option<SniError>
  {
    if p.Malformed? then Some(p.error) else None
  }

  datatype Peek = Peek(sni: bytes, raw: bytes, err: Option<SniError>, rest: bytes)

  function Zeros(n: nat): bytes
  {
    seq(n, _ => 0)
  }

  /** The outcome on a stream, the bytes handed back for replay, and what is left unread. */
  function Peeked(s: bytes, final: ReadError): Peek
  {
    if |s| < 5 then Peek([], [], Some(ReadFailed(FullError(|s|, 5, final).value)), [])
    else if s[0] != 0x16 then Peek([], s[..5], Some(NotHandshake), s[5..]) else
    var n := FromBE16(s[3..5]);
    if n < 4 || n > 16384 then Peek([], s[..5], Some(BadRecordLength), s[5..])
    else if |s| < 5 + n then
      Peek([], s + Zeros(5 + n - |s|), Some(ReadFailed(FullError(|s| - 5, n, final).value)), [])
    else
      var p := ParseBody(s[5..5 + n]);
      Peek(NameOf(p), s[..5 + n], ErrorOf(p), s[5 + n..])
  }

  lemma {:induction false} WalkErrors(exts: bytes)
    ensures Walk(exts).Malformed? ==> Walk(exts).error == BadExtension
    decreases |exts|
  {
    if |exts| >= 4 && Vector16(exts[2..]).Vector? && FromBE16(exts[..2]) != 0 {
      WalkErrors(Vector16(exts[2..]).rest);
    }
  }

  predicate HelloError(p: Parse)
  {
    p.Malformed? ==>
      !(p.error.ReadFailed? || p.error in {NotHandshake, BadRecordLength, NotClientHello, HandshakeOutOfBounds})
  }

  lemma ExtensionErrors(s: bytes)
    ensures HelloError(ParseExtensions(s))
  {
    if |s| >= 2 && Vector16(s).Vector? {
      WalkErrors(Vector16(s).body);
    }
  }

  lemma HelloErrors(hs: bytes)
    ensures HelloError(ParseHello(hs))
  {
    var a := AfterSessionId(hs);
    if a.Ok? && AfterSuites(a.value).Ok? {
      var c := AfterCompressions(AfterSuites(a.value).value);
      if c.Ok? {
        ExtensionErrors(c.value);
      }
    }
  }

  /** Which record bodies the handshake header refuses. */
  lemma HandshakeErrorExactly(body: bytes)
    ensures var p := ParseBody(body);
            var hello := |body| >= 4 && body[0] == 1;
            && (p == Malformed(NotClientHello) <==> !hello)
            && (p == Malformed(HandshakeOutOfBounds) <==>
                hello && (body[1] as int) * 0x1_0000 + (body[2] as int) * 256 + body[3] + 4 > |body|)
            && (p.Malformed? ==> !p.error.ReadFailed? && p.error !in {NotHandshake, BadRecordLength})
  {
    if |body| >= 4 {
      var n := FromBE24(body[1..4]);
      if n + 4 <= |body| {
        HelloErrors(body[4..4 + n]);
      }
    }
  }

  function RecordLength(s: bytes): int
    requires |s| >= 5
  {
    (s[3] as int) * 256 + s[4]
  }

  predicate RecordError(e: Option<SniError>)
  {
    e.Some? && (e.value.ReadFailed? || e.value == NotHandshake || e.value == BadRecordLength)
  }

  lemma BodyHasNoRecordError(body: bytes)
    ensures !RecordError(ErrorOf(ParseBody(body)))
  {
    HandshakeErrorExactly(body);
  }

  lemma RecordLengthRead(s: bytes)
    requires |s| >= 5
    ensures FromBE16(s[3..5]) == RecordLength(s)
  {
  }

  predicate Complete(s: bytes)
  {
    |s| >= 5 && s[0] == 22 && 4 <= RecordLength(s) <= 16384 && |s| >= 5 + RecordLength(s)
  }

  /** A stream that opens with a whole record of a size allowed has the error of its body, if any. */
  lemma CompleteHasBodyError(s: bytes, final: ReadError)
    requires Complete(s)
    ensures Peeked(s, final).err == ErrorOf(ParseBody(s[5..5 + RecordLength(s)]))
    ensures !RecordError(Peeked(s, final).err)
  {
    RecordLengthRead(s);
    BodyHasNoRecordError(s[5..5 + RecordLength(s)]);
  }

  /** Every other stream, and no more, has an error of the record layer: the one its bytes call for. */
  lemma PeekErrorExactly(s: bytes, final: ReadError)
    ensures !Complete(s) <==> RecordError(Peeked(s, final).err)
    ensures !Complete(s) ==>
              Peeked(s, final).err.value ==
              if |s| >= 5 && s[0] != 22 then NotHandshake
              else if |s| >= 5 && !(4 <= RecordLength(s) <= 16384) then BadRecordLength
              else ReadFailed(if |s| !in {0, 5} && final == Eof then UnexpectedEof else final)
  {
    if |s| >= 5 {
      RecordLengthRead(s);
    }
    if Complete(s) {
      CompleteHasBodyError(s, final);
    }
  }

  method ReadServerName(data: bytes) returns (p: Parse)
    ensures p == ServerName(data)
  {
    if |data| < 2 {
      return Unnamed;
    }
    var listLen := FromBE16(data[..2]);
    if 2 + listLen > |data| {
      return Unnamed;
    }
    var list := data[2..2 + listLen];
    if |list| < 5 || list[0] != 0 {
      return Unnamed;
    }
    assert list[1..][..2] == list[1..3];
    var nameLen := FromBE16(list[1..3]);
    if 3 + nameLen > |list| {
      return Unnamed;
    }
    assert list[1..][2..2 + nameLen] == list[3..3 + nameLen];
    return Named(list[3..3 + nameLen]);
  }

  // One step of the cursor against one piece taken off the front.

  lemma Vector8At(hs: bytes, p: nat)
    requires p < |hs|
    ensures var v, end := Vector8(hs[p..]), p + 1 + hs[p];
            if end > |hs| then v.NoVector? else v == Vector(hs[p + 1..end], hs[end..])
  {
  }

  lemma Vector16At(hs: bytes, p: nat)
    requires p + 2 <= |hs|
    ensures var v, end := Vector16(hs[p..]), p + 2 + FromBE16(hs[p..p + 2]);
            if end > |hs| then v.NoVector? else v == Vector(hs[p + 2..end], hs[end..])
  {
    assert hs[p..][..2] == hs[p..p + 2];
    var end := p + 2 + FromBE16(hs[p..p + 2]);
    if end <= |hs| {
      assert hs[p..][2..end - p] == hs[p + 2..end] && hs[p..][end - p..] == hs[end..];
    }
  }

  /** One turn of the walk: an answer, or the index to go on from. */
  datatype Turn = Answer(p: Parse) | GoOn(i: nat)

  function TurnAt(exts: bytes, i: nat): Turn
    requires i + 4 <= |exts|
  {
    var end := i + 4 + FromBE16(exts[i + 2..i + 4]);
    if end > |exts| then Answer(Malformed(BadExtension))
    else if FromBE16(exts[i..i + 2]) == 0 then Answer(ServerName(exts[i + 4..end]))
    else GoOn(end)
  }

  lemma TurnWalks(exts: bytes, i: nat)
    requires i + 4 <= |exts|
    ensures var turn := TurnAt(exts, i);
            Walk(exts[i..]) == if turn.Answer? then turn.p else Walk(exts[turn.i..])
  {
    assert exts[i..][..2] == exts[i..i + 2] && exts[i..][2..] == exts[i + 2..];
    Vector16At(exts, i + 2);
  }

  /** The body of the walk's loop. */
  method VisitExtension(exts: bytes, i: nat) returns (turn: Turn)
    requires i + 4 <= |exts|
    ensures turn == TurnAt(exts, i)
  {
    var t := FromBE16(exts[i..i + 2]);
    var l := FromBE16(exts[i + 2..i + 4]);
    if i + 4 + l > |exts| {
      return Answer(Malformed(BadExtension));
    }
    if t == 0 {
      var p := ReadServerName(exts[i + 4..i + 4 + l]);
      return Answer(p);
    }
    return GoOn(i + 4 + l);
  }

  /** The walk over the extension block, from index 0. */
  method WalkExtensions(exts: bytes) returns (p: Parse)
    ensures p == Walk(exts)
  {
    var i := 0;
    assert exts[0..] == exts;
    while i + 4 <= |exts|
      invariant 0 <= i <= |exts|
      invariant Walk(exts) == Walk(exts[i..])
      decreases |exts| - i
    {
      TurnWalks(exts, i);
      var turn := VisitExtension(exts, i);
      if turn.Answer? {
        return turn.p;
      }
      i := turn.i;
    }
    return Unnamed;
  }

  /** The cursor at p stands for what is left behind it. */
  predicate Reached(hs: bytes, p: Result<nat, SniError>, left: Result<bytes, SniError>)
  {
    match p
    case Err(e) => left == Err(e)
    case Ok(at) => at <= |hs| && left == Ok(hs[at..])
  }

  method SkipSessionId(hs: bytes) returns (r: Result<nat, SniError>)
    ensures Reached(hs, r, AfterSessionId(hs))
  {
    if |hs| < 2 + 32 + 1 {
      return Err(ShortHello);
    }
    var p: nat := 2 + 32;
    Vector8At(hs, p);
    var sidLen: nat := hs[p];
    p := p + 1;
    if p + sidLen > |hs| {
      return Err(BadSessionId);
    }
    return Ok(p + sidLen);
  }

  method SkipSuites(hs: bytes, start: nat) returns (r: Result<nat, SniError>)
    requires start <= |hs|
    ensures Reached(hs, r, AfterSuites(hs[start..]))
  {
    var p := start;
    if p + 2 > |hs| {
      return Err(BadSuitesLength);
    }
    Vector16At(hs, p);
    var csLen := FromBE16(hs[p..p + 2]);
    p := p + 2;
    if p + csLen > |hs| {
      return Err(BadSuites);
    }
    return Ok(p + csLen);
  }

  method SkipCompressions(hs: bytes, start: nat) returns (r: Result<nat, SniError>)
    requires start <= |hs|
    ensures Reached(hs, r, AfterCompressions(hs[start..]))
  {
    var p := start;
    if p + 1 > |hs| {
      return Err(BadCompressionLength);
    }
    Vector8At(hs, p);
    var cmLen: nat := hs[p];
    p := p + 1;
    if p + cmLen > |hs| {
      return Err(BadCompression);
    }
    return Ok(p + cmLen);
  }

  /** The cursor p over the ClientHello, taken on field by field. */
  method ReadHello(hs: bytes) returns (r: Parse)
    ensures r == ParseHello(hs)
  {
    var p := SkipSessionId(hs);
    if p.Err? {
      return Malformed(p.error);
    }
    p := SkipSuites(hs, p.value);
    if p.Err? {
      return Malformed(p.error);
    }
    p := SkipCompressions(hs, p.value);
    if p.Err? {
      return Malformed(p.error);
    }
    r := ReadExtensions(hs, p.value);
  }

  method ReadExtensions(hs: bytes, start: nat) returns (r: Parse)
    requires start <= |hs|
    ensures r == ParseExtensions(hs[start..])
  {
    var p := start;
    if p + 2 > |hs| {
      return Unnamed;
    }
    Vector16At(hs, p);
    var extLen := FromBE16(hs[p..p + 2]);
    p := p + 2;
    if p + extLen > |hs| {
      return Malformed(BadExtensionsLength);
    }
    r := WalkExtensions(hs[p..p + extLen]);
  }

  /** The handshake header, then the ClientHello. */
  method ReadHandshake(body: bytes) returns (p: Parse)
    ensures p == ParseBody(body)
  {
    if |body| < 4 || body[0] != 0x01 {
      return Malformed(NotClientHello);
    }
    var hsLen := FromBE24(body[1..4]);
    if hsLen + 4 > |body| {
      return Malformed(HandshakeOutOfBounds);
    }
    p := ReadHello(body[4..4 + hsLen]);
  }

  /** The record as read into header and body buffer, of which only n bytes may have come. */
  lemma RawIsPadded(s: bytes, recLen: nat, n: nat, body: bytes)
    requires |s| >= 5 && n == Min(recLen, |s| - 5)
    requires body == s[5..][..n] + Zeros(recLen)[n..]
    ensures |s| < 5 + recLen ==> s[..5] + body == s + Zeros(5 + recLen - |s|) && s[5..][n..] == []
    ensures |s| >= 5 + recLen ==>
              body == s[5..5 + recLen] && s[..5] + body == s[..5 + recLen] && s[5..][n..] == s[5 + recLen..]
  {
    if |s| < 5 + recLen {
      assert s[5..][..n] == s[5..] && s[..5] + s[5..] == s;
    } else {
      assert s[..5] + s[5..5 + recLen] == s[..5 + recLen];
    }
  }

  /** The record body, read after its header and parsed. */
  method PeekBody(r: Pipe, hdr: bytes, recLen: nat, ghost s: bytes)
    returns (sni: bytes, raw: bytes, err: Option<SniError>)
    requires r.Valid()
    requires |s| >= 5 && hdr == s[..5] && s[0] == 0x16 && recLen == FromBE16(s[3..5]) && 4 <= recLen <= 16384
    requires r.Remaining() == s[5..]
    modifies r
    ensures r.Valid() && r.written == old(r.written) && r.room == old(r.room)
    ensures Peek(sni, raw, err, r.Remaining()) == Peeked(s, r.final)
  {
    var body := new byte[recLen](_ => 0);
    assert body[..] == Zeros(recLen);
    var n, readErr := ReadFull(r, body);
    raw := hdr + body[..];
    RawIsPadded(s, recLen, n, body[..]);
    if readErr.Some? {
      return [], raw, Some(ReadFailed(readErr.value));
    }
    var p := ReadHandshake(body[..]);
    return NameOf(p), raw, ErrorOf(p);
  }

  method PeekClientHelloSNI(r: Pipe) returns (sni: bytes, raw: bytes, err: Option<SniError>)
    requires r.Valid()
    modifies r
    ensures r.Valid() && r.written == old(r.written) && r.room == old(r.room)
    ensures Peek(sni, raw, err, r.Remaining()) == Peeked(old(r.Remaining()), r.final)
  {
    ghost var s := r.Remaining();
    var hdr := new byte[5](_ => 0);
    var n, readErr := ReadFull(r, hdr);
    if readErr.Some? {
      return [], [], Some(ReadFailed(readErr.value));
    }
    assert hdr[..] == s[..5];
    if hdr[0] != 0x16 {
      return [], hdr[..], Some(NotHandshake);
    }
    var recLen := FromBE16(hdr[3..5]);
    assert hdr[3..5] == s[3..5];
    if recLen < 4 || recLen > 16384 {
      return [], hdr[..], Some(BadRecordLength);
    }
    sni, raw, err := PeekBody(r, hdr[..], recLen, s);
  }
}
