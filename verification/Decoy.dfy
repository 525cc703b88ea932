/**
 * `forwardDecoy`: a connection whose name is not magic is handed to the decoy server.
 *
 * Two goroutines copy, one in each direction, and the forwarder waits for one of them only;
 * it then closes the decoy's connection and after it the client's, whatever the other copy
 * still has in hand. Without a decoy address, or when dialling it fails, it closes at once.
 *
 * A copy's `unread` is what its source connection is going to yield. A read of an open
 * connection ends the copy when nothing is left, a read of a closed one always. The client's
 * connection is a `peekConn`: its `replay` is handed out first, open or closed. A write to a
 * closed connection takes nothing. `written` is what reached the other side.
 */
module Decoy {
  import opened Bytes
  import opened Pipe
  import opened Sni
  import opened SniGrammar
  import opened PeekConn

  datatype Copy = Copy(replay: bytes, unread: bytes, hand: bytes, written: bytes, done: bool, writeFailed: bool)

  /** `Up` is from client to decoy. */
  datatype Direction = Up | Down

  datatype Phase = Deciding | Copying | DecoyClosed | Closed

  datatype State = State(phase: Phase, up: Copy, down: Copy)

  datatype Event =
    | Refuse
    | Dialled
    | Read(d: Direction, n: nat)
    | Write(d: Direction, n: nat)
    | WriteFails(d: Direction, n: nat)
    | ReadEnds(d: Direction)
    | CloseDecoy
    | CloseClient

  function Fresh(replay: bytes, unread: bytes): Copy
  {
    Copy(replay, unread, [], [], false, false)
  }

  /** The client's connection has `replay` to hand out again and is going to yield `rest`; the
      decoy's is going to yield `answer`. */
  function Init(replay: bytes, rest: bytes, answer: bytes): State
  {
    State(Deciding, Fresh(replay, rest), Fresh([], answer))
  }

  function Of(s: State, d: Direction): Copy
  {
    if d == Up then s.up else s.down
  }

  function With(s: State, d: Direction, c: Copy): State
  {
    if d == Up then s.(up := c) else s.(down := c)
  }

  predicate DecoyOpen(s: State)
  {
    s.phase == Copying
  }

  predicate ClientOpen(s: State)
  {
    s.phase == Copying || s.phase == DecoyClosed
  }

  predicate SourceOpen(s: State, d: Direction)
  {
    if d == Up then ClientOpen(s) else DecoyOpen(s)
  }

  predicate TargetOpen(s: State, d: Direction)
  {
    if d == Up then DecoyOpen(s) else ClientOpen(s)
  }

  /** The copy runs and is about to read, or about to write what it holds. */
  predicate Reading(s: State, d: Direction)
  {
    s.phase != Deciding && !Of(s, d).done && Of(s, d).hand == []
  }

  predicate Writing(s: State, d: Direction)
  {
    s.phase != Deciding && !Of(s, d).done && Of(s, d).hand != []
  }

  /** What one read can hand over: replayed bytes first, and then only from an open connection. */
  function Readable(s: State, d: Direction): bytes
  {
    var c := Of(s, d);
    if c.replay != [] then c.replay else if SourceOpen(s, d) then c.unread else []
  }

  function Taken(c: Copy, n: nat): Copy
    requires n <= if c.replay != [] then |c.replay| else |c.unread|
  {
    if c.replay != [] then c.(replay := c.replay[n..], hand := c.replay[..n])
    else c.(unread := c.unread[n..], hand := c.unread[..n])
  }

  function Sent(c: Copy, n: nat): Copy
    requires n <= |c.hand|
  {
    c.(hand := c.hand[n..], written := c.written + c.hand[..n])
  }

  predicate Enabled(s: State, e: Event)
  {
    match e
    case Refuse => s.phase == Deciding
    case Dialled => s.phase == Deciding
    case Read(d, n) => Reading(s, d) && n <= |Readable(s, d)|
    case Write(d, n) => Writing(s, d) && TargetOpen(s, d) && n <= |Of(s, d).hand|
    case WriteFails(d, n) => Writing(s, d) && n <= |Of(s, d).hand| && (TargetOpen(s, d) || n == 0)
    case ReadEnds(d) => Reading(s, d) && Readable(s, d) == []
    case CloseDecoy => s.phase == Copying && (s.up.done || s.down.done)
    case CloseClient => s.phase == DecoyClosed
  }

  function Apply(s: State, e: Event): State
    requires Enabled(s, e)
  {
    match e
    case Refuse => State(Closed, s.up.(done := true), s.down.(done := true))
    case Dialled => s.(phase := Copying)
    case Read(d, n) => With(s, d, Taken(Of(s, d), n))
    case Write(d, n) => With(s, d, Sent(Of(s, d), n))
    case WriteFails(d, n) => With(s, d, Sent(Of(s, d), n).(done := true, writeFailed := true))
    case ReadEnds(d) => With(s, d, Of(s, d).(done := true))
    case CloseDecoy => s.(phase := DecoyClosed)
    case CloseClient => s.(phase := Closed)
  }

  ghost predicate Run(s: State, es: seq<Event>)
    decreases |es|, 0
  {
    es == [] || (Run(s, es[..|es| - 1]) && Enabled(After(s, es[..|es| - 1]), es[|es| - 1]))
  }

  ghost function After(s: State, es: seq<Event>): State
    requires Run(s, es)
    decreases |es|, 1
  {
    if es == [] then s else Apply(After(s, es[..|es| - 1]), es[|es| - 1])
  }

  /** Everything of one direction, wherever it is. */
  function Whole(c: Copy): bytes
  {
    c.written + c.hand + (c.replay + c.unread)
  }

  predicate Drained(c: Copy)
  {
    c.hand == [] && c.replay == [] && c.unread == []
  }

  predicate EndedForCause(c: Copy)
  {
    c.done ==> c.writeFailed || Drained(c)
  }

  predicate Inv(s: State, replay: bytes, rest: bytes, answer: bytes)
  {
    && Whole(s.up) == replay + rest && Whole(s.down) == answer && s.down.replay == []
    && (s.phase == Deciding ==> s == Init(replay, rest, answer))
    && (s.phase == Copying ==> EndedForCause(s.up) && EndedForCause(s.down))
    && (s.phase == DecoyClosed ==> s.up.done || s.down.done)
  }

  lemma TakenKeeps(c: Copy, n: nat)
    requires c.hand == [] && n <= if c.replay != [] then |c.replay| else |c.unread|
    ensures Whole(Taken(c, n)) == Whole(c)
  {
    var from := if c.replay != [] then c.replay else c.unread;
    assert from == from[..n] + from[n..];
    Regroup(c.written, from[..n], from[n..]);
    if c.replay != [] {
      Regroup(from[..n], from[n..], c.unread);
      Regroup(c.written, from[..n], from[n..] + c.unread);
    }
  }

  lemma SentKeeps(c: Copy, n: nat)
    requires n <= |c.hand|
    ensures Whole(Sent(c, n)) == Whole(c)
  {
    assert c.hand == c.hand[..n] + c.hand[n..];
    Regroup(c.written, c.hand[..n], c.hand[n..]);
  }

  lemma StepKeepsInv(s: State, e: Event, replay: bytes, rest: bytes, answer: bytes)
    requires Inv(s, replay, rest, answer) && Enabled(s, e)
    ensures Inv(Apply(s, e), replay, rest, answer)
  {
    match e
    case Dialled =>
      assert Whole(Fresh(replay, rest)) == replay + rest && Whole(Fresh([], answer)) == answer;
    case Read(d, n) => TakenKeeps(Of(s, d), n);
    case Write(d, n) => SentKeeps(Of(s, d), n);
    case WriteFails(d, n) => SentKeeps(Of(s, d), n);
    case _ =>
  }

  lemma {:induction false} RunKeepsInv(replay: bytes, rest: bytes, answer: bytes, es: seq<Event>)
    requires Run(Init(replay, rest, answer), es)
    ensures Inv(After(Init(replay, rest, answer), es), replay, rest, answer)
  {
    var s := Init(replay, rest, answer);
    if es == [] {
      assert Whole(s.up) == replay + rest && Whole(s.down) == answer;
    } else {
      RunKeepsInv(replay, rest, answer, es[..|es| - 1]);
      StepKeepsInv(After(s, es[..|es| - 1]), es[|es| - 1], replay, rest, answer);
    }
  }

  lemma DrainedExactly(c: Copy)
    ensures c.written <= Whole(c) && (c.written == Whole(c) <==> Drained(c))
  {
    Regroup(c.written, c.hand, c.replay + c.unread);
    assert |Whole(c)| == |c.written| + |c.hand| + |c.replay| + |c.unread|;
  }

  /** In every reachable state and both directions: what has arrived, then what is in hand, then
      what is unread is the stream. So either side has a prefix of what the other sent, in order,
      and all of it exactly when its copy is drained; and with no decoy, nothing, and the client's
      connection is closed. */
  lemma EachSideGetsAPrefix(replay: bytes, rest: bytes, answer: bytes, es: seq<Event>)
    requires Run(Init(replay, rest, answer), es)
    ensures var s := After(Init(replay, rest, answer), es);
            && s.up.written + s.up.hand + (s.up.replay + s.up.unread) == replay + rest
            && s.down.written + s.down.hand + s.down.unread == answer
            && s.up.written <= replay + rest && s.down.written <= answer
            && (s.up.written == replay + rest <==> Drained(s.up))
            && (s.down.written == answer <==> Drained(s.down))
            && (Dialled !in es ==> s.up.written == [] && s.down.written == [])
            && (Dialled !in es && es != [] ==> s.phase == Closed)
  {
    RunKeepsInv(replay, rest, answer, es);
    var s := After(Init(replay, rest, answer), es);
    DrainedExactly(s.up);
    DrainedExactly(s.down);
    assert s.down.replay + s.down.unread == s.down.unread;
    if Dialled !in es {
      NotDialled(replay, rest, answer, es);
    }
  }

  lemma {:induction false} NotDialled(replay: bytes, rest: bytes, answer: bytes, es: seq<Event>)
    requires Run(Init(replay, rest, answer), es) && Dialled !in es
    ensures var s := After(Init(replay, rest, answer), es);
            && s.up.written == [] && s.down.written == []
            && (if es == [] then s.phase == Deciding else s.phase == Closed && s.up.done && s.down.done)
  {
    if es != [] {
      NotDialled(replay, rest, answer, es[..|es| - 1]);
      assert es[|es| - 1] in es;
    }
  }

  predicate DecoyGone(s: State)
  {
    s.phase == DecoyClosed || s.phase == Closed
  }

  lemma {:induction false} NothingAfterTheExit(s: State, more: seq<Event>)
    requires DecoyGone(s) && Run(s, more)
    ensures DecoyGone(After(s, more)) && After(s, more).up.written == s.up.written
  {
    if more != [] {
      NothingAfterTheExit(s, more[..|more| - 1]);
    }
  }

  lemma {:induction false} RunsCompose(s: State, es: seq<Event>, more: seq<Event>)
    requires Run(s, es + more)
    ensures Run(s, es) && Run(After(s, es), more) && After(After(s, es), more) == After(s, es + more)
  {
    if more == [] {
      assert es + more == es;
    } else {
      assert (es + more)[..|es + more| - 1] == es + more[..|more| - 1];
      RunsCompose(s, es, more[..|more| - 1]);
    }
  }

  /** The decoy ends up with the whole stream exactly when the copy towards it had drained its
      source before the forwarder left, whatever happens afterwards; it falls short only if the
      decoy's own side ended first or a write to the decoy failed. */
  lemma DecoyGetsAllExactly(replay: bytes, rest: bytes, answer: bytes, es: seq<Event>, more: seq<Event>)
    requires Run(Init(replay, rest, answer), es + [CloseDecoy] + more)
    ensures Run(Init(replay, rest, answer), es)
    ensures var s := Init(replay, rest, answer);
            var exit, end := After(s, es), After(s, es + [CloseDecoy] + more);
            && end.up.written == exit.up.written
            && (end.up.written == replay + rest <==> Drained(exit.up))
            && (end.up.written != replay + rest ==> exit.up.writeFailed || (exit.down.done && !exit.up.done))
  {
    var s := Init(replay, rest, answer);
    RunsCompose(s, es + [CloseDecoy], more);
    RunsCompose(s, es, [CloseDecoy]);
    assert (es + [CloseDecoy])[..|es|] == es;
    EachSideGetsAPrefix(replay, rest, answer, es);
    RunKeepsInv(replay, rest, answer, es);
    NothingAfterTheExit(After(s, es + [CloseDecoy]), more);
  }

  /** Once both connections are closed a copy that still runs writes nothing more. It can always move,
      and a step of its own either ends it or takes replayed bytes in hand, after which it can only end. */
  lemma CopiesEndOnceClosed(s: State, d: Direction, e: Event)
    requires s.phase == Closed && !Of(s, d).done
    ensures var c := Of(s, d);
            Enabled(s, if c.hand != [] then WriteFails(d, 0)
                       else if c.replay != [] then Read(d, |c.replay|) else ReadEnds(d))
    ensures Enabled(s, e) && Of(Apply(s, e), d) != Of(s, d) ==>
              var c := Of(Apply(s, e), d);
              && c.written == Of(s, d).written
              && (c.done || (Of(s, d).hand == [] && c.hand != [] && c.hand + c.replay == Of(s, d).replay))
    ensures Of(s, d).hand != [] && Enabled(s, e) && Of(Apply(s, e), d) != Of(s, d) ==> e == WriteFails(d, 0)
  {
    if Enabled(s, e) && e.Read? && e.d == d {
      var r := Of(s, d).replay;
      assert r[..e.n] + r[e.n..] == r;
    }
  }

  // ---- What a dialled decoy can end up with ----

  ghost predicate Reaches(s: State, es: seq<Event>, s': State)
  {
    Run(s, es) && After(s, es) == s'
  }

  lemma OneMore(s: State, es: seq<Event>, s': State, e: Event)
    requires Reaches(s, es, s') && Enabled(s', e)
    ensures Reaches(s, es + [e], Apply(s', e))
  {
    assert (es + [e])[..|es|] == es;
  }

  /** A copy that holds nothing reads n bytes in one go and writes them. */
  lemma Moved(s: State, es: seq<Event>, s': State, d: Direction, n: nat) returns (es': seq<Event>, s'': State)
    requires Reaches(s, es, s') && s'.phase == Copying && Reading(s', d) && n <= |Readable(s', d)|
    ensures Reaches(s, es', s'') && es <= es' && s''.phase == Copying && (NoFailures(es) ==> NoFailures(es'))
    ensures var c, from := Of(s', d), Readable(s', d);
            && Of(s'', d) == Taken(c, n).(hand := [], written := c.written + from[..n])
            && s'' == With(s', d, Of(s'', d))
  {
    OneMore(s, es, s', Read(d, n));
    es', s'' := es + [Read(d, n)], Apply(s', Read(d, n));
    if n > 0 {
      OneMore(s, es', s'', Write(d, n));
      es', s'' := es' + [Write(d, n)], Apply(s'', Write(d, n));
      assert Readable(s', d)[..n][n..] == [] && Readable(s', d)[..n][..n] == Readable(s', d)[..n];
    } else {
      assert Of(s', d).written + [] == Of(s', d).written;
    }
  }

  /** The copy towards the decoy passes on the first n bytes. */
  lemma MovedUp(s: State, es: seq<Event>, s': State, n: nat) returns (es': seq<Event>, s'': State)
    requires Reaches(s, es, s') && s'.phase == Copying && Reading(s', Up) && s'.up.written == []
    requires n <= |s'.up.replay + s'.up.unread|
    ensures Reaches(s, es', s'') && es <= es' && s''.phase == Copying && s''.down == s'.down && Reading(s'', Up)
    ensures s''.up.written == (s'.up.replay + s'.up.unread)[..n]
    ensures NoFailures(es) ==> NoFailures(es')
  {
    var r, u := s'.up.replay, s'.up.unread;
    if n <= |r| && r != [] {
      es', s'' := Moved(s, es, s', Up, n);
      assert (r + u)[..n] == r[..n];
    } else {
      es', s'' := es, s';
      if r != [] {
        es', s'' := Moved(s, es, s', Up, |r|);
        assert r[..|r|] == r && r[|r|..] == [];
      }
      es', s'' := Moved(s, es', s'', Up, n - |r|);
      assert (r + u)[..n] == r + u[..n - |r|];
    }
  }

  /** No write of the run fails. */
  predicate NoFailures(es: seq<Event>)
  {
    forall k | 0 <= k < |es| :: !es[k].WriteFails?
  }

  /** The run is over and the decoy was dialled. */
  ghost predicate Forwarded(replay: bytes, rest: bytes, answer: bytes, es: seq<Event>)
  {
    Dialled in es && Run(Init(replay, rest, answer), es) && After(Init(replay, rest, answer), es).phase == Closed
  }

  /** Both sides have been given these bytes when all is over. */
  ghost predicate EndsWith(replay: bytes, rest: bytes, answer: bytes, es: seq<Event>, up: bytes, down: bytes)
  {
    && Forwarded(replay, rest, answer, es)
    && var end := After(Init(replay, rest, answer), es);
    end.up.written == up && end.down.written == down
  }

  /** Both copies have passed on some prefix and are about to read again. */
  lemma BothMoved(replay: bytes, rest: bytes, answer: bytes, n: nat, k: nat) returns (es: seq<Event>, s': State)
    requires n <= |replay + rest| && k <= |answer|
    ensures Reaches(Init(replay, rest, answer), es, s') && Dialled in es && NoFailures(es)
    ensures s'.phase == Copying && Reading(s', Up) && Reading(s', Down)
    ensures s'.up.written == (replay + rest)[..n] && s'.down.written == answer[..k]
  {
    var s := Init(replay, rest, answer);
    assert Reaches(s, [], s);
    OneMore(s, [], s, Dialled);
    es, s' := [] + [Dialled], Apply(s, Dialled);
    assert es[0] == Dialled;
    es, s' := MovedUp(s, es, s', n);
    es, s' := Moved(s, es, s', Down, k);
    assert [] + answer[..k] == answer[..k];
  }

  /** A copy that has passed on everything ends. */
  lemma DrainedEnds(replay: bytes, rest: bytes, answer: bytes, es: seq<Event>, s': State, d: Direction)
    returns (es': seq<Event>, s'': State)
    requires Reaches(Init(replay, rest, answer), es, s') && s'.phase == Copying && Reading(s', d)
    requires Of(s', d).written == if d == Up then replay + rest else answer
    ensures Reaches(Init(replay, rest, answer), es', s'') && es' == es + [ReadEnds(d)]
    ensures s'' == With(s', d, Of(s', d).(done := true))
  {
    EachSideGetsAPrefix(replay, rest, answer, es);
    RunKeepsInv(replay, rest, answer, es);
    assert Drained(Of(s', d));
    OneMore(Init(replay, rest, answer), es, s', ReadEnds(d));
    es', s'' := es + [ReadEnds(d)], Apply(s', ReadEnds(d));
  }

  /** The copy towards the decoy takes what there is in hand, and its write fails at once. */
  lemma UpFails(s: State, es: seq<Event>, s': State) returns (es': seq<Event>, s'': State)
    requires Reaches(s, es, s') && s'.phase == Copying && Reading(s', Up) && Readable(s', Up) != []
    ensures Reaches(s, es', s'') && es <= es' && s''.phase == Copying && s''.up.done
    ensures s''.up.written == s'.up.written && s''.down == s'.down
  {
    var n := |Readable(s', Up)|;
    OneMore(s, es, s', Read(Up, n));
    var s1 := Apply(s', Read(Up, n));
    OneMore(s, es + [Read(Up, n)], s1, WriteFails(Up, 0));
    es', s'' := es + [Read(Up, n)] + [WriteFails(Up, 0)], Apply(s1, WriteFails(Up, 0));
    assert s1.up.written + s1.up.hand[..0] == s1.up.written;
  }

  /** One copy has ended, whichever, and the forwarder leaves. */
  lemma Left(s: State, es: seq<Event>, s': State) returns (es': seq<Event>, s'': State)
    requires Reaches(s, es, s') && s'.phase == Copying && (s'.up.done || s'.down.done)
    ensures Reaches(s, es', s'') && es' == es + [CloseDecoy] + [CloseClient] && s'' == s'.(phase := Closed)
  {
    OneMore(s, es, s', CloseDecoy);
    var s1 := Apply(s', CloseDecoy);
    OneMore(s, es + [CloseDecoy], s1, CloseClient);
    es', s'' := es + [CloseDecoy] + [CloseClient], Apply(s1, CloseClient);
  }

  /** If one side has been given everything, the forwarder can leave there, with no write failing. */
  lemma UnbrokenRun(replay: bytes, rest: bytes, answer: bytes, up: bytes, down: bytes) returns (es: seq<Event>)
    requires up <= replay + rest && down <= answer && (up == replay + rest || down == answer)
    ensures EndsWith(replay, rest, answer, es, up, down) && NoFailures(es)
  {
    var s := Init(replay, rest, answer);
    var s1;
    es, s1 := BothMoved(replay, rest, answer, |up|, |down|);
    es, s1 := DrainedEnds(replay, rest, answer, es, s1, if down == answer then Down else Up);
    es, s1 := Left(s, es, s1);
  }

  lemma BrokenRun(replay: bytes, rest: bytes, answer: bytes, up: bytes, down: bytes) returns (es: seq<Event>)
    requires up <= replay + rest && down <= answer && up != replay + rest
    ensures EndsWith(replay, rest, answer, es, up, down)
  {
    var s := Init(replay, rest, answer);
    var s1;
    es, s1 := BothMoved(replay, rest, answer, |up|, |down|);
    EachSideGetsAPrefix(replay, rest, answer, es);
    es, s1 := UpFails(s, es, s1);
    es, s1 := Left(s, es, s1);
  }

  /** Any prefix, however short, can be all the decoy is given while the client gets the whole answer:
      the decoy closes its side at that point. And the other way about: a client that ends its side can be
      given any prefix of the answer. */
  lemma EitherSideCanFinishFirst(replay: bytes, rest: bytes, answer: bytes, n: nat, k: nat)
    returns (decoyFirst: seq<Event>, clientFirst: seq<Event>)
    requires n <= |replay + rest| && k <= |answer|
    ensures EndsWith(replay, rest, answer, decoyFirst, (replay + rest)[..n], answer) && NoFailures(decoyFirst)
    ensures EndsWith(replay, rest, answer, clientFirst, replay + rest, answer[..k]) && NoFailures(clientFirst)
  {
    decoyFirst := UnbrokenRun(replay, rest, answer, (replay + rest)[..n], answer);
    clientFirst := UnbrokenRun(replay, rest, answer, replay + rest, answer[..k]);
  }

  predicate LeavingInv(s: State, dialled: bool)
  {
    && !s.up.writeFailed && !s.down.writeFailed
    && (dialled ==> s.phase != Deciding)
    && (dialled && DecoyGone(s) ==> Drained(s.up) || Drained(s.down))
  }

  lemma StepKeepsLeavingInv(s: State, e: Event, dialled: bool)
    requires LeavingInv(s, dialled) && Enabled(s, e) && !e.WriteFails?
    requires s.phase == Copying ==> EndedForCause(s.up) && EndedForCause(s.down)
    ensures LeavingInv(Apply(s, e), dialled || e == Dialled)
  {
  }

  /** While no write fails, the forwarder leaves only when one direction has been passed on whole. */
  lemma {:induction false} LeftForCause(replay: bytes, rest: bytes, answer: bytes, es: seq<Event>)
    requires Run(Init(replay, rest, answer), es) && NoFailures(es)
    ensures LeavingInv(After(Init(replay, rest, answer), es), Dialled in es)
  {
    if es != [] {
      var n := |es| - 1;
      LeftForCause(replay, rest, answer, es[..n]);
      RunKeepsInv(replay, rest, answer, es[..n]);
      assert Dialled in es <==> Dialled in es[..n] || es[n] == Dialled;
      StepKeepsLeavingInv(After(Init(replay, rest, answer), es[..n]), es[n], Dialled in es[..n]);
    }
  }

  /** What decoy and client can have been given when all is over: any two prefixes and nothing else; and
      while no write fails, exactly those of which one is the whole. */
  lemma OutcomesExactly(replay: bytes, rest: bytes, answer: bytes, up: bytes, down: bytes)
    ensures (exists es :: EndsWith(replay, rest, answer, es, up, down)) <==> up <= replay + rest && down <= answer
    ensures (exists es :: EndsWith(replay, rest, answer, es, up, down) && NoFailures(es)) <==>
            up <= replay + rest && down <= answer && (up == replay + rest || down == answer)
  {
    forall es | EndsWith(replay, rest, answer, es, up, down)
      ensures up <= replay + rest && down <= answer
      ensures NoFailures(es) ==> up == replay + rest || down == answer
    {
      EachSideGetsAPrefix(replay, rest, answer, es);
      if NoFailures(es) {
        LeftForCause(replay, rest, answer, es);
      }
    }
    if up <= replay + rest && down <= answer {
      if up == replay + rest || down == answer {
        var es := UnbrokenRun(replay, rest, answer, up, down);
      } else {
        var es := BrokenRun(replay, rest, answer, up, down);
      }
    }
  }

  /** So a dialled decoy is sure of the whole stream exactly when there is nothing to send. */
  lemma SureOfAllExactly(replay: bytes, rest: bytes, answer: bytes)
    ensures (forall es | Forwarded(replay, rest, answer, es) ::
               After(Init(replay, rest, answer), es).up.written == replay + rest) <==> replay + rest == []
  {
    var es, _ := EitherSideCanFinishFirst(replay, rest, answer, 0, 0);
    forall es | Forwarded(replay, rest, answer, es)
      ensures After(Init(replay, rest, answer), es).up.written <= replay + rest
    {
      EachSideGetsAPrefix(replay, rest, answer, es);
    }
  }

  /** From the wire: the decoy of a connection that carries a ClientHello with another name is
      only ever given, in order, bytes the client has sent, from the first one on. */
  lemma DecoySeesTheConnection(version: bytes, m: Message, sent: bytes, final: ReadError, magic: seq<bytes>,
                               answer: bytes, es: seq<Event>)
    requires |version| == 2 && ValidMessage(m) && 4 <= |MessageBytes(m)| <= 16384
    requires magic != [] && NameOf(Meaning(m.hello.block)) !in magic
    requires var k := Peeked(Record(version, MessageBytes(m)) + sent, final);
             Run(Init(k.raw, k.rest, answer), es)
    ensures var s := Record(version, MessageBytes(m)) + sent;
            var k := Peeked(s, final);
            && RouteOf(magic, k) == ToDecoy
            && After(Init(k.raw, k.rest, answer), es).up.written <= s
  {
    ClientHelloIsRoutedByName(version, m, sent, final, magic);
    var k := Peeked(Record(version, MessageBytes(m)) + sent, final);
    EachSideGetsAPrefix(k.raw, k.rest, answer, es);
  }
}
