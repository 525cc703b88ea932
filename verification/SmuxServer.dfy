/**
 * The server side of the multiplexing transport: one `acceptStreams` goroutine for every
 * session, all feeding one bounded channel, `out`.
 *
 * A goroutine wraps each stream its session yields with the session's own socket and hash, and
 * either gets it into the channel or, once the server is closed, gives it up and ends. Streams
 * are told apart by their ids. `accepted` records the ids a session yielded and `lost` those
 * its goroutine gave up; nothing reads them.
 */
module SmuxServer {
  import opened Wrappers
  import opened Smux
  import FanIn
  import Tunnel

  type Handed = FanIn.Tagged<SmuxStream>

  datatype Worker = Accepting | Holding(id: nat) | Ended

  datatype Session = Session(outer: Outer, worker: Worker, accepted: seq<nat>, lost: seq<nat>)

  datatype State = State(sessions: seq<Session>, out: seq<Handed>, delivered: seq<Handed>, done: bool)

  datatype Event =
    | Establish(outer: Outer)
    | AcceptStream(sid: nat, id: nat)
    | SessionDies(sid: nat)
    | Send(sid: nat)
    | GiveUp(sid: nat)
    | Deliver
    | Close

  const CAPACITY: nat := 64

  const INIT: State := State([], [], [], false)

  /** The stream handed to the consumer for an id a session accepted. */
  function Wrapped(o: Outer, id: nat): SmuxStream
  {
    SmuxStream(id, o, Some(o.raw), o.hash)
  }

  function WrappedAll(o: Outer, ids: seq<nat>): (ws: seq<SmuxStream>)
    ensures |ws| == |ids|
  {
    seq(|ids|, k requires 0 <= k < |ids| => Wrapped(o, ids[k]))
  }

  predicate Is(s: State, sid: nat, w: Worker)
  {
    sid < |s.sessions| && s.sessions[sid].worker == w
  }

  predicate Holds(s: State, sid: nat)
  {
    sid < |s.sessions| && s.sessions[sid].worker.Holding?
  }

  predicate Enabled(s: State, e: Event)
  {
    match e
    case Establish(_) => true
    case AcceptStream(sid, _) => Is(s, sid, Accepting)
    case SessionDies(sid) => Is(s, sid, Accepting)
    case Send(sid) => Holds(s, sid) && |s.out| < CAPACITY
    case GiveUp(sid) => Holds(s, sid) && s.done
    case Deliver => s.out != []
    case Close => true
  }

  function Apply(s: State, e: Event): State
    requires Enabled(s, e)
  {
    match e
    case Establish(outer) =>
      s.(sessions := s.sessions + [Session(outer, Accepting, [], [])])
    case AcceptStream(sid, id) =>
      var c := s.sessions[sid];
      s.(sessions := s.sessions[sid := c.(worker := Holding(id), accepted := c.accepted + [id])])
    case SessionDies(sid) =>
      s.(sessions := s.sessions[sid := s.sessions[sid].(worker := Ended)])
    case Send(sid) =>
      var c := s.sessions[sid];
      s.(sessions := s.sessions[sid := c.(worker := Accepting)],
         out := s.out + [FanIn.Tagged(sid, Wrapped(c.outer, c.worker.id))])
    case GiveUp(sid) =>
      var c := s.sessions[sid];
      s.(sessions := s.sessions[sid := c.(worker := Ended, lost := c.lost + [c.worker.id])])
    case Deliver =>
      s.(out := s.out[1..], delivered := s.delivered + [s.out[0]])
    case Close =>
      s.(done := true)
  }

  ghost predicate Run(es: seq<Event>)
    decreases |es|, 0
  {
    es == [] || (Run(es[..|es| - 1]) && Enabled(After(es[..|es| - 1]), es[|es| - 1]))
  }

  ghost function After(es: seq<Event>): State
    requires Run(es)
    decreases |es|, 1
  {
    if es == [] then INIT else Apply(After(es[..|es| - 1]), es[|es| - 1])
  }

  /** The streams of one session handed out so far, in order. */
  function HandedOut(s: State, sid: nat): seq<SmuxStream>
  {
    FanIn.From(s.delivered + s.out, sid)
  }

  function InHand(c: Session): seq<nat>
  {
    if c.worker.Holding? then [c.worker.id] else []
  }

  predicate SessionInv(s: State, sid: nat)
    requires sid < |s.sessions|
  {
    var c := s.sessions[sid];
    && WrappedAll(c.outer, c.accepted) == HandedOut(s, sid) + WrappedAll(c.outer, InHand(c) + c.lost)
    && |c.lost| <= 1
    && (c.worker != Ended ==> c.lost == [])
    && (c.lost != [] ==> s.done)
  }

  predicate Inv(s: State)
  {
    && |s.out| <= CAPACITY
    && (forall k | 0 <= k < |s.delivered + s.out| :: (s.delivered + s.out)[k].origin < |s.sessions|)
    && forall sid | 0 <= sid < |s.sessions| :: SessionInv(s, sid)
  }

  lemma WrappedOneMore(o: Outer, ids: seq<nat>, id: nat)
    ensures WrappedAll(o, ids + [id]) == WrappedAll(o, ids) + [Wrapped(o, id)]
    ensures WrappedAll(o, [id] + []) == [Wrapped(o, id)] && WrappedAll(o, [] + [id]) == [Wrapped(o, id)]
  {
  }

  lemma {:induction false} NoneFromOthers<T>(ts: seq<FanIn.Tagged<T>>, i: nat)
    requires forall k | 0 <= k < |ts| :: ts[k].origin != i
    ensures FanIn.From(ts, i) == []
  {
    if ts != [] {
      NoneFromOthers(ts[1..], i);
    }
  }

  lemma EstablishKeepsInv(s: State, outer: Outer)
    requires Inv(s)
    ensures Inv(Apply(s, Establish(outer)))
  {
    var s' := Apply(s, Establish(outer));
    NoneFromOthers(s.delivered + s.out, |s.sessions|);
    forall sid | 0 <= sid < |s'.sessions| ensures SessionInv(s', sid) {
      if sid < |s.sessions| {
        assert SessionInv(s, sid);
      }
    }
  }

  lemma AcceptKeepsInv(s: State, sid: nat, id: nat)
    requires Inv(s) && Enabled(s, AcceptStream(sid, id))
    ensures Inv(Apply(s, AcceptStream(sid, id)))
  {
    var s' := Apply(s, AcceptStream(sid, id));
    forall j | 0 <= j < |s'.sessions| ensures SessionInv(s', j) {
      assert SessionInv(s, j);
      WrappedOneMore(s.sessions[j].outer, s.sessions[j].accepted, id);
    }
  }

  lemma SendKeepsInv(s: State, sid: nat)
    requires Inv(s) && Enabled(s, Send(sid))
    ensures Inv(Apply(s, Send(sid)))
    ensures var c := s.sessions[sid];
            Apply(s, Send(sid)).delivered + Apply(s, Send(sid)).out ==
            s.delivered + s.out + [FanIn.Tagged(sid, Wrapped(c.outer, c.worker.id))]
  {
    var s', c := Apply(s, Send(sid)), s.sessions[sid];
    var t := FanIn.Tagged(sid, Wrapped(c.outer, c.worker.id));
    assert s'.delivered + s'.out == s.delivered + s.out + [t];
    forall j | 0 <= j < |s'.sessions| ensures SessionInv(s', j) {
      assert SessionInv(s, j);
      FanIn.FromAppend(s.delivered + s.out, t, j);
      WrappedOneMore(c.outer, [], c.worker.id);
    }
  }

  lemma GiveUpKeepsInv(s: State, sid: nat)
    requires Inv(s) && Enabled(s, GiveUp(sid))
    ensures Inv(Apply(s, GiveUp(sid)))
  {
    var s', c := Apply(s, GiveUp(sid)), s.sessions[sid];
    assert SessionInv(s, sid);
    assert InHand(c) + c.lost == [] + (c.lost + [c.worker.id]);
    forall j | 0 <= j < |s'.sessions| ensures SessionInv(s', j) {
      assert SessionInv(s, j);
    }
  }

  lemma StepKeepsInv(s: State, e: Event)
    requires Inv(s) && Enabled(s, e)
    ensures Inv(Apply(s, e))
  {
    match e
    case Establish(outer) => EstablishKeepsInv(s, outer);
    case AcceptStream(sid, id) => AcceptKeepsInv(s, sid, id);
    case Send(sid) => SendKeepsInv(s, sid);
    case GiveUp(sid) => GiveUpKeepsInv(s, sid);
    case _ =>
      var s' := Apply(s, e);
      assert s'.delivered + s'.out == s.delivered + s.out;
      forall j | 0 <= j < |s'.sessions| ensures SessionInv(s', j) {
        assert SessionInv(s, j);
      }
  }

  lemma {:induction false} RunKeepsInv(es: seq<Event>)
    requires Run(es)
    ensures Inv(After(es))
  {
    if es != [] {
      RunKeepsInv(es[..|es| - 1]);
      StepKeepsInv(After(es[..|es| - 1]), es[|es| - 1]);
    }
  }

  /** In every interleaving of any number of sessions: the streams handed out for a session are
      those it accepted, one for one and in order, each with that session's socket and hash, but
      for the one its goroutine still holds or, after Close, gave up. */
  lemma EachSessionInOrder(es: seq<Event>, sid: nat)
    requires Run(es) && sid < |After(es).sessions|
    ensures var s := After(es);
            var c, out := s.sessions[sid], HandedOut(s, sid);
            && |c.accepted| - 1 <= |out| <= |c.accepted|
            && out == WrappedAll(c.outer, c.accepted[..|out|])
            && (|out| < |c.accepted| <==> c.worker.Holding? || c.lost != [])
            && (c.lost != [] ==> s.done)
            && |s.out| <= CAPACITY
  {
    RunKeepsInv(es);
    var s := After(es);
    var c, out := s.sessions[sid], HandedOut(s, sid);
    assert SessionInv(s, sid);
    assert |WrappedAll(c.outer, c.accepted)| == |out| + |InHand(c) + c.lost|;
    forall k | 0 <= k < |out| ensures out[k] == WrappedAll(c.outer, c.accepted[..|out|])[k] {
      assert out[k] == WrappedAll(c.outer, c.accepted)[k];
    }
  }

  /** No goroutine is stuck with a stream: it can send, or room can be made. */
  lemma HoldersCanMove(es: seq<Event>, sid: nat)
    requires Run(es) && Holds(After(es), sid)
    ensures var s := After(es);
            Enabled(s, Send(sid)) || (Enabled(s, Deliver) && Enabled(Apply(s, Deliver), Send(sid)))
  {
    RunKeepsInv(es);
  }

  lemma ExtendRun(es: seq<Event>, e: Event)
    requires Run(es) && Enabled(After(es), e)
    ensures Run(es + [e]) && After(es + [e]) == Apply(After(es), e)
  {
    assert (es + [e])[..|es|] == es;
  }

  /** A run in which one session waits for its next stream and m of its streams wait. */
  ghost predicate Waiting(es: seq<Event>, m: nat)
  {
    Run(es) && |After(es).out| == m && Is(After(es), 0, Accepting) && !After(es).done
  }

  /** One goroutine alone can fill the channel with 64 streams, accepting again after each send. */
  lemma {:induction false} ChannelFills(m: nat, outer: Outer) returns (es: seq<Event>)
    requires m <= 64
    ensures Waiting(es, m)
  {
    if m == 0 {
      ExtendRun([], Establish(outer));
      es := [] + [Establish(outer)];
    } else {
      es := ChannelFills(m - 1, outer);
      ExtendRun(es, AcceptStream(0, m));
      es := es + [AcceptStream(0, m)];
      ExtendRun(es, Send(0));
      es := es + [Send(0)];
    }
  }

  /** After Close a goroutine that holds a stream may give it up and end; after a send it accepts again;
      the channel takes 64 streams and no more. */
  lemma GoroutinesGoOnOrLeave(es: seq<Event>, sid: nat)
    requires Run(es) && Holds(After(es), sid)
    ensures var s := After(es);
            var closed := Apply(s, Close);
            && Enabled(closed, GiveUp(sid))
            && Apply(closed, GiveUp(sid)).sessions[sid].worker == Ended
            && Apply(closed, GiveUp(sid)).out == s.out
            && (Enabled(s, Send(sid)) <==> |s.out| < 64)
            && (Enabled(s, Send(sid)) ==> Is(Apply(s, Send(sid)), sid, Accepting))
  {
  }

  /** What one session does, even its end, leaves every other session as it is, and the server open. */
  lemma SessionsAreApart(s: State, e: Event, sid: nat)
    requires Enabled(s, e) && sid < |s.sessions|
    ensures var s' := Apply(s, e);
            && |s'.sessions| >= |s.sessions|
            && (s'.sessions[sid] != s.sessions[sid] ==>
                  e in {Send(sid), GiveUp(sid), SessionDies(sid)} || (e.AcceptStream? && e.sid == sid))
            && (e == SessionDies(sid) ==> Is(s', sid, Ended) && s'.sessions[sid].accepted == s.sessions[sid].accepted)
            && (s'.done != s.done ==> e == Close)
  {
  }

  /** Channel binding, end to end. A stream the client obtained after any run of dials, whose id
      its session's other end accepted as its j-th: the server hands it out as the j-th of that
      session, if it has come to it, and the client's token for an accepted UUID verifies there. */
  lemma TokensVerifyAcrossReconnects(attempts: seq<Attempt>, next: Attempt, es: seq<Event>, sid: nat, j: nat,
                                     hmac: Tunnel.Hmac, uuids: seq<string>, uuid: string)
    requires Run(es) && sid < |After(es).sessions| && uuid in uuids
    requires var dialled := Dialled(ClientAfter(ClientState(None, None, []), attempts), next.closed, next.answers).0;
             && dialled.result.Ok?
             && var stream, c := dialled.result.value, After(es).sessions[sid];
             c.outer.hash == stream.opener.hash && j < |c.accepted| && c.accepted[j] == stream.id
    ensures var stream :=
              Dialled(ClientAfter(ClientState(None, None, []), attempts), next.closed, next.answers).0.result.value;
            var s := After(es);
            var c, out := s.sessions[sid], HandedOut(s, sid);
            && (j >= |out| ==> j == |c.accepted| - 1 && (c.worker == Holding(stream.id) || c.lost != []))
            && (j < |out| ==>
                && out[j].id == stream.id && out[j].raw == Some(c.outer.raw)
                && Tunnel.TokenOk(hmac, uuids, Tunnel.DeriveToken(hmac, uuid, stream.hash), out[j].hash))
  {
    StreamsMatchTheirSession(attempts, next);
    EachSessionInOrder(es, sid);
    RunKeepsInv(es);
    var s := After(es);
    assert SessionInv(s, sid);
    if Holds(s, sid) {
      LastIsInHand(s, sid);
    }
  }

  lemma LastIsInHand(s: State, sid: nat)
    requires Inv(s) && Holds(s, sid)
    ensures var c := s.sessions[sid];
            c.accepted != [] && c.accepted[|c.accepted| - 1] == c.worker.id
  {
    assert SessionInv(s, sid);
    var c := s.sessions[sid];
    var all := WrappedAll(c.outer, c.accepted);
    assert all[|all| - 1] == Wrapped(c.outer, c.worker.id);
  }

  // ---- The goroutine as code ----

  /** `acceptStreams`, run on its own: `incoming` are the ids the session yields before it ends,
      `room` how many get out before the server is closed. */
  method AcceptStreams(server: Outer, incoming: seq<nat>, room: nat, out: seq<SmuxStream>)
    returns (out': seq<SmuxStream>)
    ensures out' == out + WrappedAll(server, if |incoming| <= room then incoming else incoming[..room])
  {
    out' := out;
    var i := 0;
    while i < |incoming|
      invariant 0 <= i <= |incoming| && i <= room
      invariant out' == out + WrappedAll(server, incoming[..i])
    {
      if i == room {
        return;
      }
      WrappedOneMore(server, incoming[..i], incoming[i]);
      assert incoming[..i + 1] == incoming[..i] + [incoming[i]];
      out' := out' + [Wrapped(server, incoming[i])];
      i := i + 1;
    }
    assert incoming[..i] == incoming;
  }
}
