/**
 * `CompositeListener`: one goroutine per listener feeding a bounded channel.
 *
 * A worker holds at most one accepted item; it either gets it into the channel or, once
 * the listener is closed, gives it up. `accepted` and `lost` record what each listener's
 * Accept returned and what its worker gave up; nothing reads them. An Accept of the
 * composite that reports a cancelled context or a closed listener changes no state, so it
 * is not an event; a closed listener's own Accept returns a `Failure`.
 */
module FanIn {
  datatype Item = Stream(id: nat) | Failure(code: nat)

  datatype Worker = Accepting | Holding(item: Item) | Exited

  datatype Tagged<T> = Tagged(origin: nat, item: T)

  datatype State = State(workers: seq<Worker>, chan: seq<Tagged<Item>>, delivered: seq<Tagged<Item>>, done: bool,
                         accepted: seq<seq<Item>>, lost: seq<seq<Item>>)

  datatype Event =
    | AcceptReturns(i: nat, item: Item)
    | Send(i: nat)
    | GiveUp(i: nat)
    | Receive
    | Close

  function Init(n: nat): State
  {
    State(seq(n, _ => Accepting), [], [], false, seq(n, _ => []), seq(n, _ => []))
  }

  function Capacity(s: State): nat
  {
    4 * |s.workers|
  }

  predicate Holds(s: State, i: nat)
  {
    i < |s.workers| && s.workers[i].Holding?
  }

  predicate WellSized(s: State)
  {
    |s.workers| == |s.accepted| == |s.lost|
  }

  predicate Enabled(s: State, e: Event)
  {
    match e
    case AcceptReturns(i, _) => i < |s.workers| && s.workers[i] == Accepting
    case Send(i) => Holds(s, i) && |s.chan| < Capacity(s)
    case GiveUp(i) => Holds(s, i) && s.done
    case Receive => s.chan != []
    case Close => true
  }

  function Apply(s: State, e: Event): (s': State)
    requires WellSized(s) && Enabled(s, e)
    ensures WellSized(s') && |s'.workers| == |s.workers|
  {
    match e
    case AcceptReturns(i, item) =>
      s.(workers := s.workers[i := Holding(item)], accepted := s.accepted[i := s.accepted[i] + [item]])
    case Send(i) =>
      var item := s.workers[i].item;
      s.(workers := s.workers[i := if item.Failure? then Exited else Accepting],
         chan := s.chan + [Tagged(i, item)])
    case GiveUp(i) =>
      s.(workers := s.workers[i := Exited], lost := s.lost[i := s.lost[i] + [s.workers[i].item]])
    case Receive =>
      s.(chan := s.chan[1..], delivered := s.delivered + [s.chan[0]])
    case Close =>
      s.(done := true)
  }

  ghost predicate Run(s: State, es: seq<Event>)
    requires WellSized(s)
    decreases |es|, 0
  {
    es == [] || (Run(s, es[..|es| - 1]) && Enabled(After(s, es[..|es| - 1]), es[|es| - 1]))
  }

  ghost function After(s: State, es: seq<Event>): (s': State)
    requires WellSized(s) && Run(s, es)
    ensures WellSized(s') && |s'.workers| == |s.workers|
    decreases |es|, 1
  {
    if es == [] then s else Apply(After(s, es[..|es| - 1]), es[|es| - 1])
  }

  /** The items of one origin, in order. */
  function From<T>(ts: seq<Tagged<T>>, i: nat): seq<T>
  {
    if ts == [] then []
    else if ts[0].origin == i then [ts[0].item] + From(ts[1..], i)
    else From(ts[1..], i)
  }

  function Held(w: Worker): seq<Item>
  {
    if w.Holding? then [w.item] else []
  }

  predicate NoFailure(items: seq<Item>)
  {
    forall k | 0 <= k < |items| :: items[k].Stream?
  }

  predicate FailsOnlyLast(items: seq<Item>)
  {
    forall k | 0 <= k < |items| - 1 :: items[k].Stream?
  }

  predicate WorkerInv(s: State, i: nat)
    requires WellSized(s) && i < |s.workers|
  {
    && s.accepted[i] == From(s.delivered + s.chan, i) + Held(s.workers[i]) + s.lost[i]
    && FailsOnlyLast(s.accepted[i])
    && (s.workers[i] == Accepting ==> NoFailure(s.accepted[i]))
    && (s.workers[i] != Exited ==> s.lost[i] == [])
    && |s.lost[i]| <= 1
    && (s.lost[i] != [] ==> s.done)
    && (s.workers[i] == Exited && s.lost[i] == [] ==>
          s.accepted[i] != [] && s.accepted[i][|s.accepted[i]| - 1].Failure?)
  }

  predicate Inv(s: State)
    requires WellSized(s)
  {
    && |s.chan| <= Capacity(s)
    && (forall k | 0 <= k < |s.delivered + s.chan| :: (s.delivered + s.chan)[k].origin < |s.workers|)
    && forall i | 0 <= i < |s.workers| :: WorkerInv(s, i)
  }

  lemma {:induction false} FromAppend<T>(ts: seq<Tagged<T>>, t: Tagged<T>, i: nat)
    ensures From(ts + [t], i) == From(ts, i) + (if t.origin == i then [t.item] else [])
  {
    if ts == [] {
      assert From([t], i) == (if t.origin == i then [t.item] else []) + From([], i);
      assert [] + [t] == [t];
    } else {
      FromAppend(ts[1..], t, i);
      assert (ts + [t])[1..] == ts[1..] + [t];
    }
  }

  lemma SendKeepsInv(s: State, i: nat)
    requires WellSized(s) && Inv(s) && Enabled(s, Send(i))
    ensures Inv(Apply(s, Send(i)))
    ensures var s' := Apply(s, Send(i));
            s'.delivered + s'.chan == s.delivered + s.chan + [Tagged(i, s.workers[i].item)]
  {
    var s' := Apply(s, Send(i));
    var t := Tagged(i, s.workers[i].item);
    assert s'.delivered + s'.chan == s.delivered + s.chan + [t];
    forall j | 0 <= j < |s'.workers| ensures WorkerInv(s', j) {
      assert WorkerInv(s, j);
      FromAppend(s.delivered + s.chan, t, j);
    }
  }

  lemma AcceptKeepsInv(s: State, i: nat, item: Item)
    requires WellSized(s) && Inv(s) && Enabled(s, AcceptReturns(i, item))
    ensures Inv(Apply(s, AcceptReturns(i, item)))
  {
    var s' := Apply(s, AcceptReturns(i, item));
    forall j | 0 <= j < |s'.workers| ensures WorkerInv(s', j) {
      assert WorkerInv(s, j);
    }
  }

  lemma GiveUpKeepsInv(s: State, i: nat)
    requires WellSized(s) && Inv(s) && Enabled(s, GiveUp(i))
    ensures Inv(Apply(s, GiveUp(i)))
  {
    var s' := Apply(s, GiveUp(i));
    forall j | 0 <= j < |s'.workers| ensures WorkerInv(s', j) {
      assert WorkerInv(s, j);
    }
  }

  lemma StepKeepsInv(s: State, e: Event)
    requires WellSized(s) && Inv(s) && Enabled(s, e)
    ensures Inv(Apply(s, e))
  {
    match e
    case AcceptReturns(i, item) => AcceptKeepsInv(s, i, item);
    case Send(i) => SendKeepsInv(s, i);
    case GiveUp(i) => GiveUpKeepsInv(s, i);
    case _ =>
      var s' := Apply(s, e);
      assert s'.delivered + s'.chan == s.delivered + s.chan;
      forall j | 0 <= j < |s'.workers| ensures WorkerInv(s', j) {
        assert WorkerInv(s, j);
      }
  }

  lemma {:induction false} RunKeepsInv(n: nat, es: seq<Event>)
    requires Run(Init(n), es)
    ensures Inv(After(Init(n), es))
  {
    if es == [] {
      forall i | 0 <= i < n ensures WorkerInv(Init(n), i) {
        assert Init(n).delivered + Init(n).chan == [];
      }
    } else {
      RunKeepsInv(n, es[..|es| - 1]);
      StepKeepsInv(After(Init(n), es[..|es| - 1]), es[|es| - 1]);
    }
  }

  lemma {:induction false} FromSplits<T>(a: seq<Tagged<T>>, b: seq<Tagged<T>>, i: nat)
    ensures From(a + b, i) == From(a, i) + From(b, i)
  {
    if a == [] {
      assert a + b == b;
    } else {
      FromSplits(a[1..], b, i);
      assert (a + b)[1..] == a[1..] + b;
    }
  }

  /** In every reachable state, what a listener returned is what was delivered from it, then
      what is in the channel from it, then what its worker holds, then what its worker gave up;
      only after Close is anything given up, and then one item at most. */
  lemma Conservation(n: nat, es: seq<Event>, i: nat)
    requires Run(Init(n), es) && i < n
    ensures var s := After(Init(n), es);
            && s.accepted[i] == From(s.delivered, i) + From(s.chan, i) + Held(s.workers[i]) + s.lost[i]
            && |s.lost[i]| <= 1 && (!s.done ==> s.lost[i] == [])
            && (s.lost[i] != [] ==> Held(s.workers[i]) == [])
            && |s.chan| <= 4 * n
  {
    RunKeepsInv(n, es);
    var s := After(Init(n), es);
    assert WorkerInv(s, i);
    FromSplits(s.delivered, s.chan, i);
  }

  /** An error from a listener is the last thing it ever contributes. */
  lemma NothingFollowsAnError(n: nat, es: seq<Event>, i: nat)
    requires Run(Init(n), es) && i < n
    ensures var s := After(Init(n), es);
            FailsOnlyLast(s.accepted[i]) && FailsOnlyLast(From(s.delivered, i))
  {
    RunKeepsInv(n, es);
    var s := After(Init(n), es);
    assert WorkerInv(s, i);
    FromSplits(s.delivered, s.chan, i);
    forall k | 0 <= k < |From(s.delivered, i)| - 1 ensures From(s.delivered, i)[k].Stream? {
      assert From(s.delivered, i)[k] == s.accepted[i][k];
    }
  }

  /** Once the consumer has drained an open composite and its workers are idle, it has seen
      exactly what every listener returned. */
  lemma DrainedMeansDelivered(n: nat, es: seq<Event>, i: nat)
    requires Run(Init(n), es) && i < n
    requires var s := After(Init(n), es); !s.done && s.chan == [] && !Holds(s, i)
    ensures From(After(Init(n), es).delivered, i) == After(Init(n), es).accepted[i]
  {
    Conservation(n, es, i);
  }

  /** No worker is ever stuck with an item: it can send, or room can be made, or it may leave. */
  lemma HoldersCanMove(n: nat, es: seq<Event>, i: nat)
    requires Run(Init(n), es) && Holds(After(Init(n), es), i)
    ensures var s := After(Init(n), es);
            Enabled(s, Send(i)) || (Enabled(s, Receive) && Enabled(Apply(s, Receive), Send(i)))
  {
    RunKeepsInv(n, es);
  }

  /** A run in which m streams wait and the first worker accepts. */
  ghost predicate Waiting(n: nat, es: seq<Event>, m: nat)
  {
    && n > 0 && Run(Init(n), es)
    && var s := After(Init(n), es);
    |s.chan| == m && s.workers[0] == Accepting && !s.done
  }

  lemma ExtendRun(s: State, es: seq<Event>, e: Event)
    requires WellSized(s) && Run(s, es) && Enabled(After(s, es), e)
    ensures Run(s, es + [e]) && After(s, es + [e]) == Apply(After(s, es), e)
  {
    assert (es + [e])[..|es|] == es;
  }

  /** Four items a listener can wait, for any number of listeners: one worker alone can fill the channel,
      accepting again after each send. */
  lemma {:induction false} ChannelFills(n: nat, m: nat) returns (es: seq<Event>)
    requires n > 0 && m <= 4 * n
    ensures Waiting(n, es, m)
  {
    if m == 0 {
      es := [];
    } else {
      es := ChannelFills(n, m - 1);
      ExtendRun(Init(n), es, AcceptReturns(0, Stream(0)));
      es := es + [AcceptReturns(0, Stream(0))];
      ExtendRun(Init(n), es, Send(0));
      es := es + [Send(0)];
    }
  }

  /** After Close every worker that holds an item may give it up and end. After a send a worker accepts
      again, unless what it sent was an error. */
  lemma WorkersGoOnOrLeave(n: nat, es: seq<Event>, i: nat)
    requires Run(Init(n), es) && Holds(After(Init(n), es), i)
    ensures var s := After(Init(n), es);
            var closed := Apply(s, Close);
            && Enabled(closed, GiveUp(i))
            && Apply(closed, GiveUp(i)).workers[i] == Exited
            && Apply(closed, GiveUp(i)).lost[i] == s.lost[i] + [s.workers[i].item]
            && Apply(closed, GiveUp(i)).chan == s.chan
            && (Enabled(s, Send(i)) <==> |s.chan| < 4 * n)
            && (Enabled(s, Send(i)) ==>
                  Apply(s, Send(i)).workers[i] == if s.workers[i].item.Stream? then Accepting else Exited)
  {
  }

  lemma StepFixesOrder(s: State, e: Event)
    requires WellSized(s) && Enabled(s, e)
    ensures var s' := Apply(s, e);
            s.delivered + s.chan <= s'.delivered + s'.chan && s.delivered <= s'.delivered
  {
    var s' := Apply(s, e);
    match e
    case Send(i) =>
      assert s'.delivered + s'.chan == s.delivered + s.chan + [Tagged(i, s.workers[i].item)];
    case Receive =>
      assert s'.delivered + s'.chan == s.delivered + s.chan;
    case _ =>
  }

  /** The channel neither reorders nor duplicates: along a run, delivered ++ channel only grows at its end. */
  lemma {:induction false} OrderIsFixedAtSend(n: nat, es: seq<Event>, more: seq<Event>)
    requires Run(Init(n), es + more)
    ensures Run(Init(n), es)
    ensures var s, s' := After(Init(n), es), After(Init(n), es + more);
            s.delivered + s.chan <= s'.delivered + s'.chan && s.delivered <= s'.delivered
  {
    if more == [] {
      assert es + more == es;
    } else {
      var fewer := more[..|more| - 1];
      assert (es + more)[..|es + more| - 1] == es + fewer;
      OrderIsFixedAtSend(n, es, fewer);
      StepFixesOrder(After(Init(n), es + fewer), (es + more)[|es + more| - 1]);
    }
  }
}
