/** The length-prefixed frames that carry the two Noise handshake messages. */
module Noise {
  import opened Wrappers
  import opened Bytes
  import opened Pipe

  datatype FrameError = TooLarge | BadSize | ReadFailed(error: ReadError) | Refused | WriteFailed

  const MAX_FRAME: nat := 65535

  function Frame(b: bytes): bytes
    requires |b| <= MAX_FRAME
  {
    BE16(|b|) + b
  }

  /** A frame is two messages: the length, then the body. A broken link takes what it can of them. */
  method WriteFrame(w: Pipe, b: bytes) returns (err: Option<FrameError>)
    requires w.Valid()
    modifies w
    ensures w.Valid() && w.delivered == old(w.delivered)
    ensures |b| > MAX_FRAME ==> err == Some(TooLarge) && w.queue == old(w.queue) && w.room == old(w.room)
    ensures |b| > MAX_FRAME ==> w.written == old(w.written) && w.Remaining() == old(w.Remaining())
    ensures |b| <= MAX_FRAME ==>
              && err == (if Fits(Frame(b), old(w.room)) then None else Some(WriteFailed))
              && w.written == old(w.written) + Clip(Frame(b), old(w.room))
              && w.Remaining() == old(w.Remaining()) + Clip(Frame(b), old(w.room))
              && w.room == RoomAfter(old(w.room), Frame(b))
    ensures err == None ==> w.queue == old(w.queue) + [BE16(|b|), b]
  {
    if |b| > MAX_FRAME {
      return Some(TooLarge);
    }
    var hdr := BE16(|b|);
    ghost var room := w.room;
    ClipAppend(hdr, b, room);
    Regroup(w.written, Clip(hdr, room), Clip(b, RoomAfter(room, hdr)));
    Regroup(w.Remaining(), Clip(hdr, room), Clip(b, RoomAfter(room, hdr)));
    var ok := w.Write(hdr);
    if !ok {
      return Some(WriteFailed);
    }
    ok := w.Write(b);
    err := if ok then None else Some(WriteFailed);
  }

  function Unframed(s: bytes, final: ReadError): Parsed<Result<bytes, FrameError>>
  {
    var h := Taken(s, 2, final);
    if h.value.Err? then Parsed(Err(ReadFailed(h.value.error)), h.rest) else
    var n := FromBE16(h.value.value);
    if n == 0 then Parsed(Err(BadSize), h.rest) else
    var b := Taken(h.rest, n, final);
    if b.value.Err? then Parsed(Err(ReadFailed(b.value.error)), b.rest)
    else Parsed(Ok(b.value.value), b.rest)
  }

  method ReadFrame(r: Pipe) returns (res: Result<bytes, FrameError>)
    requires r.Valid()
    modifies r
    ensures r.Valid() && r.written == old(r.written) && r.room == old(r.room)
    ensures Parsed(res, r.Remaining()) == Unframed(old(r.Remaining()), r.final)
  {
    var hdr := Take(r, 2);
    if hdr.Err? {
      return Err(ReadFailed(hdr.error));
    }
    var n := FromBE16(hdr.value);
    if n == 0 || n > MAX_FRAME {
      return Err(BadSize);
    }
    var body := Take(r, n);
    if body.Err? {
      return Err(ReadFailed(body.error));
    }
    return Ok(body.value);
  }

  /** Reading a frame undoes writing one, on every body of 1 to 65535 bytes and no other,
      and leaves what follows it untouched. */
  lemma FrameRoundTrip(s: bytes, final: ReadError, b: bytes, rest: bytes)
    ensures Unframed(s, final) == Parsed(Ok(b), rest) <==> 1 <= |b| <= MAX_FRAME && s == Frame(b) + rest
  {
    if 1 <= |b| <= MAX_FRAME && s == Frame(b) + rest {
      FrameReads(final, b, rest);
    }
    if Unframed(s, final) == Parsed(Ok(b), rest) {
      FrameWritten(s, final, b, rest);
    }
  }

  lemma FrameReads(final: ReadError, b: bytes, rest: bytes)
    requires 1 <= |b| <= MAX_FRAME
    ensures Unframed(Frame(b) + rest, final) == Parsed(Ok(b), rest)
  {
    Regroup(BE16(|b|), b, rest);
    TakenExactly(Frame(b) + rest, 2, final, BE16(|b|), b + rest);
    BE16Inverse(|b|, BE16(|b|));
    TakenExactly(b + rest, |b|, final, b, rest);
  }

  lemma FrameWritten(s: bytes, final: ReadError, b: bytes, rest: bytes)
    requires Unframed(s, final) == Parsed(Ok(b), rest)
    ensures 1 <= |b| <= MAX_FRAME && s == Frame(b) + rest
  {
    var h := Taken(s, 2, final);
    TakenExactly(s, 2, final, h.value.value, h.rest);
    BE16Inverse(0, h.value.value);
    TakenExactly(h.rest, FromBE16(h.value.value), final, b, rest);
    Regroup(BE16(|b|), b, rest);
  }

  /** What `readFrame` refuses: a length of zero, and a stream shorter than the length it opens with. */
  lemma FrameErrorExactly(s: bytes, final: ReadError)
    ensures var u := Unframed(s, final);
            var n := if |s| >= 2 then (s[0] as int) * 256 + s[1] else 0;
            && (u.value == Err(BadSize) <==> |s| >= 2 && n == 0)
            && (u.value == Err(BadSize) ==> u.rest == s[2..])
            && (u.value.Err? && u.value.error.ReadFailed? <==> |s| < 2 || (n > 0 && |s| < 2 + n))
            && (u.value.Err? && u.value.error.ReadFailed? ==>
                  u.rest == [] && u.value.error.error == if |s| != 0 && |s| != 2 && final == Eof
                                                         then UnexpectedEof else final)
            && u.value !in {Err(TooLarge), Err(Refused), Err(WriteFailed)}
  {
  }

  /** `writeFrame` accepts an empty body; `readFrame` does not. */
  lemma EmptyFrameIsRefused(rest: bytes, final: ReadError)
    ensures Unframed(Frame([]) + rest, final) == Parsed(Err(BadSize), rest)
  {
    assert (Frame([]) + rest)[..2] == BE16(0);
  }

  /** `ServerHandshake`: one frame in, one frame out. `respond` is the Noise engine, which
      refuses a bad first message. The result is the first message, for the engine's state. */
  method ServerHandshake(r: Pipe, w: Pipe, respond: bytes -> Option<bytes>) returns (res: Result<bytes, FrameError>)
    requires r != w && r.Valid() && w.Valid()
    modifies r, w
    ensures r.Valid() && w.Valid() && r.room == old(r.room) && r.written == old(r.written)
    ensures var got := Unframed(old(r.Remaining()), r.final);
            var reply := ReplyTo(got.value, respond);
            && r.Remaining() == got.rest
            && w.written == old(w.written) + Clip(reply, old(w.room))
            && w.Remaining() == old(w.Remaining()) + Clip(reply, old(w.room))
            && w.room == RoomAfter(old(w.room), reply)
            && (res.Ok? <==> reply != [] && Fits(reply, old(w.room)))
            && (res.Ok? ==> res == got.value)
  {
    var msg1 := ReadFrame(r);
    if msg1.Err? {
      return msg1;
    }
    var msg2 := respond(msg1.value);
    if msg2.None? {
      return Err(Refused);
    }
    var err := WriteFrame(w, msg2.value);
    if err.Some? {
      return Err(err.value);
    }
    return msg1;
  }

  /** The frame the server answers with, if it answers. */
  function ReplyTo(got: Result<bytes, FrameError>, respond: bytes -> Option<bytes>): bytes
  {
    if got.Ok? && respond(got.value).Some? && |respond(got.value).value| <= MAX_FRAME
    then Frame(respond(got.value).value) else []
  }

  /** What the client makes of the stream it reads its answer from: the frame, if the engine takes it. */
  function Answered(s: bytes, final: ReadError, accepts: bytes -> bool): Parsed<Result<bytes, FrameError>>
  {
    var got := Unframed(s, final);
    if got.value.Ok? && !accepts(got.value.value) then Parsed(Err(Refused), got.rest) else got
  }

  /** The half of `ClientHandshake` that follows its own message. `accepts` is the Noise engine,
      which refuses a bad second message. */
  method ReadAnswer(r: Pipe, accepts: bytes -> bool) returns (res: Result<bytes, FrameError>)
    requires r.Valid()
    modifies r
    ensures r.Valid() && r.written == old(r.written) && r.room == old(r.room)
    ensures Parsed(res, r.Remaining()) == Answered(old(r.Remaining()), r.final, accepts)
  {
    res := ReadFrame(r);
    if res.Ok? && !accepts(res.value) {
      return Err(Refused);
    }
  }

  /** The client's handshake succeeds exactly when its stream opens with a frame, of 1 to 65535 bytes
      behind their number, that the engine takes; a frame the engine does not take is refused. */
  lemma AnsweredExactly(s: bytes, final: ReadError, accepts: bytes -> bool, b: bytes, rest: bytes)
    ensures Answered(s, final, accepts) == Parsed(Ok(b), rest) <==>
            1 <= |b| <= 65535 && s == [|b| / 256, |b| % 256] + b + rest && accepts(b)
    ensures Answered(s, final, accepts) == Parsed(Err(Refused), rest) <==>
            exists m :: Unframed(s, final) == Parsed(Ok(m), rest) && !accepts(m)
  {
    FrameRoundTrip(s, final, b, rest);
    FrameErrorExactly(s, final);
  }

  /** The server answers exactly when its stream opens with a frame the engine accepts and answers within
      the limit, and then with the frame of that answer. */
  lemma RepliesExactly(s: bytes, final: ReadError, respond: bytes -> Option<bytes>, m2: bytes)
    requires |m2| <= 65535
    ensures ReplyTo(Unframed(s, final).value, respond) == [|m2| / 256, |m2| % 256] + m2 <==>
            exists m1, rest :: Unframed(s, final) == Parsed(Ok(m1), rest) && respond(m1) == Some(m2)
    ensures ReplyTo(Unframed(s, final).value, respond) == [] <==>
            forall m1, rest | Unframed(s, final) == Parsed(Ok(m1), rest) ::
              respond(m1).None? || |respond(m1).value| > 65535
  {
    var got := Unframed(s, final);
    if got.value.Ok? {
      assert Unframed(s, final) == Parsed(Ok(got.value.value), got.rest);
      var m := respond(got.value.value);
      if m.Some? && |m.value| <= 65535 {
        assert Frame(m.value)[2..] == m.value && ([|m2| / 256, |m2| % 256] + m2)[2..] == m2;
      }
    }
  }

  /** `ClientHandshake` when the other side's frame is already on its way: one frame out, one in. */
  method ClientHandshake(w: Pipe, r: Pipe, msg1: bytes, accepts: bytes -> bool)
    returns (res: Result<bytes, FrameError>)
    requires r != w && r.Valid() && w.Valid()
    modifies r, w
    ensures r.Valid() && w.Valid()
    ensures w.written == old(w.written) + (if |msg1| <= MAX_FRAME then Clip(Frame(msg1), old(w.room)) else [])
    ensures if |msg1| > MAX_FRAME then res == Err(TooLarge) && r.Remaining() == old(r.Remaining())
            else if !Fits(Frame(msg1), old(w.room)) then res == Err(WriteFailed) && r.Remaining() == old(r.Remaining())
            else Parsed(res, r.Remaining()) == Answered(old(r.Remaining()), r.final, accepts)
  {
    var err := WriteFrame(w, msg1);
    if err.Some? {
      return Err(err.value);
    }
    res := ReadAnswer(r, accepts);
  }
}
