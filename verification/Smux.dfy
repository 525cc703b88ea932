/**
 * The multiplexing client that caches one outer session.
 *
 * What the network answers is an argument: the outcome of each outer dial (TCP, TLS, Noise
 * and smux together) and of each attempt to open a stream. A session may close at any time.
 */
module Smux {
  import opened Wrappers
  import opened Bytes

  /** An outer connection: its raw socket and the hash its Noise handshake ended with. */
  datatype Outer = Outer(raw: nat, hash: bytes)

  /** `opens` and `reopens` are the id of the stream opened, if one was. */
  datatype Answers = Answers(first: Option<Outer>, opens: Option<nat>, second: Option<Outer>, reopens: Option<nat>)

  /** A stream knows its id and the raw socket and hash it was handed; `opener` is the session
      it in fact belongs to. */
  datatype SmuxStream = SmuxStream(id: nat, opener: Outer, raw: Option<nat>, hash: bytes)

  datatype DialError = DialFailed | ReconnectFailed | OpenFailed

  datatype ClientState = ClientState(session: Option<Outer>, raw: Option<nat>, hash: bytes)

  /** The outcome of a dial, and how many outer dials it made. */
  datatype DialOutcome = DialOutcome(result: Result<SmuxStream, DialError>, outers: nat)

  function Adopt(o: Outer): ClientState
  {
    ClientState(Some(o), Some(o.raw), o.hash)
  }

  /** A Dial that finds its session closed or not; `usable` is the session it first tries. */
  function Dialled(c: ClientState, closed: bool, a: Answers): (DialOutcome, ClientState)
  {
    var redial := c.session.None? || closed;
    if redial && a.first.None? then (DialOutcome(Err(DialFailed), 1), c) else
    var c1 := if redial then Adopt(a.first.value) else c;
    var n := if redial then 1 else 0;
    if a.opens.Some? then (DialOutcome(Ok(SmuxStream(a.opens.value, c1.session.value, c1.raw, c1.hash)), n), c1)
    else if a.second.None? then (DialOutcome(Err(ReconnectFailed), n + 1), c1.(session := None))
    else
      var c2 := Adopt(a.second.value);
      if a.reopens.None? then (DialOutcome(Err(OpenFailed), n + 1), c2)
      else (DialOutcome(Ok(SmuxStream(a.reopens.value, c2.session.value, c2.raw, c2.hash)), n + 1), c2)
  }

  class Session {
    const outer: Outer
    var closed: bool

    constructor (outer: Outer)
      ensures this.outer == outer && !closed
    {
      this.outer := outer;
      closed := false;
    }
  }

  class Client {
    var session: Session?
    var raw: Option<nat>
    var hash: bytes

    ghost function Abstract(): ClientState
      reads this
    {
      ClientState(if session == null then None else Some(session.outer), raw, hash)
    }

    constructor ()
      ensures Abstract() == ClientState(None, None, [])
    {
      session, raw, hash := null, None, [];
    }

    method DialOuter(answer: Option<Outer>) returns (ok: bool)
      modifies this
      ensures ok == answer.Some?
      ensures ok ==> Abstract() == Adopt(answer.value) && fresh(session) && !session.closed
      ensures !ok ==> Abstract() == old(Abstract()) && session == old(session)
    {
      if answer.None? {
        return false;
      }
      session := new Session(answer.value);
      raw := Some(answer.value.raw);
      hash := answer.value.hash;
      return true;
    }

    method Dial(a: Answers) returns (out: DialOutcome)
      modifies this
      ensures (out, Abstract()) == Dialled(old(Abstract()), old(session != null && session.closed), a)
    {
      var n := 0;
      if session == null || session.closed {
        var ok := DialOuter(a.first);
        n := 1;
        if !ok {
          return DialOutcome(Err(DialFailed), n);
        }
      }
      var opener, streamId := session.outer, a.opens;
      if streamId.None? {
        session := null;
        var ok := DialOuter(a.second);
        n := n + 1;
        if !ok {
          return DialOutcome(Err(ReconnectFailed), n);
        }
        opener, streamId := session.outer, a.reopens;
        if streamId.None? {
          return DialOutcome(Err(OpenFailed), n);
        }
      }
      return DialOutcome(Ok(SmuxStream(streamId.value, opener, raw, hash)), n);
    }

    method Close()
      modifies session
      ensures Abstract() == old(Abstract()) && session == old(session)
      ensures session != null ==> session.closed
    {
      if session != null {
        session.closed := true;
      }
    }
  }

  /** One Dial of a run: the session it found had closed, or not, for whatever reason. */
  datatype Attempt = Attempt(closed: bool, answers: Answers)

  function ClientAfter(c: ClientState, attempts: seq<Attempt>): ClientState
  {
    if attempts == [] then c
    else
      var last := attempts[|attempts| - 1];
      Dialled(ClientAfter(c, attempts[..|attempts| - 1]), last.closed, last.answers).1
  }

  /** One Dial, whatever it finds and whatever the network answers. It needs a session: the cached one if
      that is open, or a new one. If that opens no stream it is dropped, and a second one gets one more try. */
  lemma DialExactly(c: ClientState, closed: bool, a: Answers)
    ensures var (out, c') := Dialled(c, closed, a);
            var isOpen := c.session.Some? && !closed;
            var first := if isOpen then c.session else a.first;
            var retry := first.Some? && a.opens.None?;
            && out.outers == (if isOpen then 0 else 1) + (if retry then 1 else 0)
            && (out.result.Ok? <==> first.Some? && (a.opens.Some? || (a.second.Some? && a.reopens.Some?)))
            && (out.result == Err(DialFailed) <==> first.None?)
            && (out.result == Err(ReconnectFailed) <==> retry && a.second.None?)
            && (out.result == Err(OpenFailed) <==> retry && a.second.Some? && a.reopens.None?)
            && (out.result.Ok? && !retry ==>
                  out.result.value.id == a.opens.value && out.result.value.opener == first.value)
            && (out.result.Ok? && retry ==>
                  out.result.value.id == a.reopens.value && out.result.value.opener == a.second.value)
            && (first.None? ==> c' == c)
            && (first.Some? ==> c'.session == if retry then a.second else first)
            && (out.outers > 0 && c'.session.Some? && first.Some? ==>
                  c'.raw == Some(c'.session.value.raw) && c'.hash == c'.session.value.hash)
            && (isOpen && !(retry && a.second.Some?) ==> c'.raw == c.raw && c'.hash == c.hash)
  {
  }

  predicate Coherent(c: ClientState)
  {
    c.session.Some? ==> c.raw == Some(c.session.value.raw) && c.hash == c.session.value.hash
  }

  lemma {:induction false} RunsStayCoherent(attempts: seq<Attempt>)
    ensures Coherent(ClientAfter(ClientState(None, None, []), attempts))
  {
    if attempts != [] {
      RunsStayCoherent(attempts[..|attempts| - 1]);
    }
  }

  /** In every run, the stream a Dial returns carries the socket and hash of the session that
      opened it, that session is the one cached before, found open, or one just dialled; and a
      Dial makes at most two outer dials, and one at least if it replaces the session. */
  lemma StreamsMatchTheirSession(attempts: seq<Attempt>, next: Attempt)
    ensures var c := ClientAfter(ClientState(None, None, []), attempts);
            var (out, c') := Dialled(c, next.closed, next.answers);
            && out.outers <= 2
            && (c'.session.Some? && c'.session != c.session ==> out.outers >= 1)
            && (out.result.Ok? ==>
                var s := out.result.value;
                && s.raw == Some(s.opener.raw) && s.hash == s.opener.hash
                && c'.session == Some(s.opener)
                && (|| (out.outers == 0 && !next.closed && c.session == Some(s.opener))
                    || (out.outers >= 1 && Some(s.opener) in {next.answers.first, next.answers.second})))
  {
    RunsStayCoherent(attempts);
  }
}
