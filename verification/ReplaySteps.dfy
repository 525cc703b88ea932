/**
 * Any number of `Check` calls running at once.
 *
 * Each call is a program counter over the source's critical sections: it reads
 * the clock and tests the skew, rotates under the lock, probes under the read
 * lock, then probes again and inserts under the write lock. Between those points
 * anything may happen, so a call acts on a clock reading that has gone stale.
 * `lag` bounds how stale: a call reaches its locked re-check within `lag` of
 * its clock reading. In a `prompt` environment that holds of every step of every
 * call: the clock does not pass a call's reading by more than the lag while the
 * call is unfinished.
 */
module ReplaySteps {
  import opened Bytes
  import opened Replay

  datatype Pc = AtRotate | AtProbe | AtInsert | Done(verdict: Verdict)

  datatype Call = Call(ts: int, nonce: bytes, now: int, pc: Pc)

  /** The filter, the clock, every call ever begun, and the keys added since the last
      two rotations, which nothing reads. */
  datatype State = State(clock: int, calls: map<nat, Call>, filter: FilterState,
                         currKeys: set<Key>, prevKeys: set<Key>)

  datatype Event =
    | Tick(time: int)
    | Begin(id: nat, ts: int, nonce: bytes)
    | Rotate(id: nat)
    | Probe(id: nat)
    | Insert(id: nat)

  /** The surroundings of a run: the lag bound, whether timestamps stay less than 2^63 ns
      ahead of the clock, and whether every call is done within the lag. */
  datatype Env = Env(lag: int, inRange: bool, prompt: bool)

  predicate At(s: State, id: nat, pc: Pc)
  {
    id in s.calls && s.calls[id].pc == pc
  }

  /** No call that is still running would be older than the lag at this time. */
  predicate NoneOverdue(env: Env, s: State, time: int)
  {
    forall id | id in s.calls && !s.calls[id].pc.Done? :: time <= s.calls[id].now + env.lag
  }

  predicate Enabled(env: Env, s: State, e: Event)
  {
    match e
    case Tick(time) => s.clock <= time && (env.prompt ==> NoneOverdue(env, s, time))
    case Begin(id, ts, _) => id !in s.calls && (env.inRange ==> s.clock - ts > MIN_DURATION)
    case Rotate(id) => At(s, id, AtRotate)
    case Probe(id) => At(s, id, AtProbe)
    case Insert(id) => At(s, id, AtInsert) && s.clock <= s.calls[id].now + env.lag
  }

  function KeyOf(c: Config, call: Call): Key
  {
    Digest(c.sha, call.ts, call.nonce)
  }

  function Moved(s: State, id: nat, pc: Pc): State
    requires id in s.calls
  {
    s.(calls := s.calls[id := s.calls[id].(pc := pc)])
  }

  ghost function Apply(c: Config, env: Env, s: State, e: Event): State
    requires Usable(c) && Enabled(env, s, e)
  {
    match e
    case Tick(time) => s.(clock := time)
    case Begin(id, ts, nonce) =>
      var pc := if SkewOk(c, s.clock, ts) then AtRotate else Done(Skewed);
      s.(calls := s.calls[id := Call(ts, nonce, s.clock, pc)])
    case Rotate(id) =>
      var now := s.calls[id].now;
      var s' := if now >= s.filter.rotateAt
                then s.(filter := Rotated(c, s.filter, now), currKeys := {}, prevKeys := s.currKeys)
                else s;
      Moved(s', id, AtProbe)
    case Probe(id) =>
      Moved(s, id, if Hit(c, s.filter, KeyOf(c, s.calls[id])) then Done(Replayed) else AtInsert)
    case Insert(id) =>
      var key := KeyOf(c, s.calls[id]);
      if Hit(c, s.filter, key) then Moved(s, id, Done(Replayed))
      else Moved(s.(filter := Inserted(c, s.filter, key), currKeys := s.currKeys + {key}), id, Done(Fresh))
  }

  /** A filter made by `New` at clock reading `start`. */
  function Init(c: Config, start: int): State
  {
    State(start, map[], FilterState({}, {}, start + c.rate), {}, {})
  }

  ghost predicate Run(c: Config, env: Env, s: State, es: seq<Event>)
    requires Usable(c)
    decreases |es|, 0
  {
    es == [] ||
    (Run(c, env, s, es[..|es| - 1]) && Enabled(env, After(c, env, s, es[..|es| - 1]), es[|es| - 1]))
  }

  ghost function After(c: Config, env: Env, s: State, es: seq<Event>): State
    requires Usable(c) && Run(c, env, s, es)
    decreases |es|, 1
  {
    if es == [] then s
    else Apply(c, env, After(c, env, s, es[..|es| - 1]), es[|es| - 1])
  }

  predicate Accepted(s: State, id: nat)
  {
    At(s, id, Done(Fresh))
  }

  predicate SameTuple(s: State, a: nat, b: nat)
    requires a in s.calls && b in s.calls
  {
    s.calls[a].ts == s.calls[b].ts && s.calls[a].nonce == s.calls[b].nonce
  }

  ghost predicate NoDoubleAccept(s: State)
  {
    forall a, b | Accepted(s, a) && Accepted(s, b) && a != b :: !SameTuple(s, a, b)
  }

  /** What a filter guards against: in no run is one tuple accepted by two calls. */
  ghost predicate Safe(c: Config, env: Env)
    requires Usable(c)
  {
    forall start, es | Run(c, env, Init(c, start), es) :: NoDoubleAccept(After(c, env, Init(c, start), es))
  }

  // ---- Invariants ----

  /** The bits of a bloom are exactly those of the keys added to it. */
  ghost predicate Covers(c: Config, bits: set<nat>, keys: set<Key>)
    requires Usable(c)
  {
    forall j: nat :: j in bits <==> exists key :: key in keys && j in Positions(key, c.hashes, c.m)
  }

  /** Where the key of a call that read the clock at `now` can be: each rotation that
      moves it on comes later than the bound on the next one allowed. */
  predicate Retained(c: Config, s: State, key: Key, now: int)
  {
    || (key in s.currKeys && s.filter.rotateAt > now)
    || (key in s.prevKeys && s.filter.rotateAt > now + c.rate)
    || s.filter.rotateAt > now + 2 * c.rate
  }

  ghost predicate CallInv(c: Config, s: State, id: nat)
    requires id in s.calls
  {
    var call := s.calls[id];
    && call.now <= s.clock
    && (call.pc != Done(Skewed) ==> SkewOk(c, call.now, call.ts) && call.now - call.ts > MIN_DURATION)
    && (call.pc != Done(Skewed) && call.pc != AtRotate ==> s.filter.rotateAt > call.now)
    && (call.pc == Done(Fresh) ==> Retained(c, s, KeyOf(c, call), call.now))
  }

  ghost predicate Inv(c: Config, s: State)
    requires Usable(c)
  {
    && s.filter.rotateAt <= s.clock + c.rate
    && Covers(c, s.filter.curr, s.currKeys)
    && Covers(c, s.filter.prev, s.prevKeys)
    && forall id | id in s.calls :: CallInv(c, s, id)
  }

  lemma CoversAdd(c: Config, bits: set<nat>, keys: set<Key>, key: Key)
    requires Usable(c) && Covers(c, bits, keys)
    ensures Covers(c, bits + Positions(key, c.hashes, c.m), keys + {key})
  {
    forall j: nat
      ensures j in bits + Positions(key, c.hashes, c.m)
              <==> exists k :: k in keys + {key} && j in Positions(k, c.hashes, c.m)
    {
      if j in Positions(key, c.hashes, c.m) {
        assert key in keys + {key};
      } else if j in bits {
        var k :| k in keys && j in Positions(k, c.hashes, c.m);
        assert k in keys + {key};
      }
    }
  }

  /** The bloom reports every key it was given: no false negatives. */
  lemma CoveredKeysHit(c: Config, s: State, key: Key)
    requires Usable(c) && Inv(c, s)
    requires key in s.currKeys || key in s.prevKeys
    ensures Hit(c, s.filter, key)
  {
    forall j | j in Positions(key, c.hashes, c.m)
      ensures key in s.currKeys ==> j in s.filter.curr
      ensures key in s.prevKeys ==> j in s.filter.prev
    {
    }
  }

  lemma RotateKeepsInv(c: Config, env: Env, s: State, id: nat)
    requires Usable(c) && c.rate > 0 && Inv(c, s) && Enabled(env, s, Rotate(id))
    ensures Inv(c, Apply(c, env, s, Rotate(id)))
  {
    var s' := Apply(c, env, s, Rotate(id));
    assert CallInv(c, s, id);
    forall x | x in s'.calls ensures CallInv(c, s', x) {
      assert CallInv(c, s, x);
    }
  }

  lemma InsertKeepsInv(c: Config, env: Env, s: State, id: nat)
    requires Usable(c) && c.rate > 0 && Inv(c, s) && Enabled(env, s, Insert(id))
    ensures Inv(c, Apply(c, env, s, Insert(id)))
  {
    var s' := Apply(c, env, s, Insert(id));
    CoversAdd(c, s.filter.curr, s.currKeys, KeyOf(c, s.calls[id]));
    forall x | x in s'.calls ensures CallInv(c, s', x) {
      assert CallInv(c, s, x);
    }
  }

  lemma StepKeepsInv(c: Config, env: Env, s: State, e: Event)
    requires Usable(c) && c.rate > 0 && env.inRange && Inv(c, s) && Enabled(env, s, e)
    ensures Inv(c, Apply(c, env, s, e))
  {
    match e
    case Rotate(id) => RotateKeepsInv(c, env, s, id);
    case Insert(id) => InsertKeepsInv(c, env, s, id);
    case Begin(_, _, _) =>
      var s' := Apply(c, env, s, e);
      forall x | x in s'.calls ensures CallInv(c, s', x) {
        assert x in s.calls ==> CallInv(c, s, x);
      }
    case _ =>
      var s' := Apply(c, env, s, e);
      forall x | x in s'.calls ensures CallInv(c, s', x) {
        assert CallInv(c, s, x);
      }
  }

  lemma {:induction false} RunKeepsInv(c: Config, env: Env, start: int, es: seq<Event>)
    requires Usable(c) && c.rate > 0 && env.inRange && Run(c, env, Init(c, start), es)
    ensures Inv(c, After(c, env, Init(c, start), es))
  {
    if es != [] {
      var n := |es| - 1;
      RunKeepsInv(c, env, start, es[..n]);
      StepKeepsInv(c, env, After(c, env, Init(c, start), es[..n]), es[n]);
    }
  }

  // ---- Results ----

  ghost predicate TookEffect(c: Config, env: Env, start: int, es: seq<Event>, i: nat)
    requires Usable(c)
  {
    && i < |es| && es[i].Rotate? && Run(c, env, Init(c, start), es[..i])
    && var s := After(c, env, Init(c, start), es[..i]);
    es[i].id in s.calls && s.calls[es[i].id].now >= s.filter.rotateAt
  }

  /** The clock reading of the call whose rotation event i is. */
  ghost function Reading(c: Config, env: Env, start: int, es: seq<Event>, i: nat): int
    requires Usable(c) && TookEffect(c, env, start, es, i)
  {
    After(c, env, Init(c, start), es[..i]).calls[es[i].id].now
  }

  lemma TookEffectStays(c: Config, env: Env, start: int, es: seq<Event>, n: nat, i: nat)
    requires Usable(c) && n <= |es| && TookEffect(c, env, start, es[..n], i)
    ensures TookEffect(c, env, start, es, i)
    ensures Reading(c, env, start, es, i) == Reading(c, env, start, es[..n], i)
  {
    assert es[..n][..i] == es[..i];
  }

  /** The next rotation is due one period after the start, or after the reading of the call
      that rotated last. */
  lemma {:induction false} RotateAtIsALastReading(c: Config, env: Env, start: int, es: seq<Event>) returns (i: int)
    requires Usable(c) && Run(c, env, Init(c, start), es)
    ensures var rotateAt := After(c, env, Init(c, start), es).filter.rotateAt;
            if i < 0 then rotateAt == start + c.rate
            else TookEffect(c, env, start, es, i) && rotateAt == Reading(c, env, start, es, i) + c.rate
  {
    if es == [] {
      return -1;
    }
    var n := |es| - 1;
    var s := After(c, env, Init(c, start), es[..n]);
    if es[n].Rotate? && s.calls[es[n].id].now >= s.filter.rotateAt {
      return n;
    }
    i := RotateAtIsALastReading(c, env, start, es[..n]);
    if i >= 0 {
      TookEffectStays(c, env, start, es, n, i);
    }
  }

  /** What has rotated since an insertion: the indices of the first rotation to take effect after
      it, if any, and of the last one after that, if any. */
  datatype Since = Nothing | One(first: nat) | More(first: nat, last: nat)

  /** A key inserted at event j of a run by a call that read the clock at `now` moves on with each
      rotation that takes effect; from the second on its reading is more than a period later. */
  ghost predicate Traced(c: Config, env: Env, start: int, es: seq<Event>, j: nat, key: Key, now: int, since: Since)
    requires Usable(c) && Run(c, env, Init(c, start), es)
  {
    var s := After(c, env, Init(c, start), es);
    match since
    case Nothing => key in s.currKeys && s.filter.rotateAt > now
    case One(k) => j < k && TookEffect(c, env, start, es, k) && key in s.prevKeys && s.filter.rotateAt > now + c.rate
    case More(k, i) =>
      && j < k < i && TookEffect(c, env, start, es, k) && TookEffect(c, env, start, es, i)
      && Reading(c, env, start, es, i) > now + c.rate && s.filter.rotateAt > now + 2 * c.rate
  }

  lemma TracedFurther(c: Config, env: Env, start: int, es: seq<Event>, j: nat, key: Key, now: int, since: Since)
    returns (since': Since)
    requires Usable(c) && c.rate > 0 && es != [] && j < |es| - 1 && Run(c, env, Init(c, start), es)
    requires Traced(c, env, start, es[..|es| - 1], j, key, now, since)
    ensures Traced(c, env, start, es, j, key, now, since')
  {
    var n := |es| - 1;
    var s := After(c, env, Init(c, start), es[..n]);
    if !since.Nothing? {
      TookEffectStays(c, env, start, es, n, since.first);
    }
    if since.More? {
      TookEffectStays(c, env, start, es, n, since.last);
    }
    since' := since;
    if es[n].Rotate? && s.calls[es[n].id].now >= s.filter.rotateAt {
      assert TookEffect(c, env, start, es, n);
      since' := if since.Nothing? then One(n) else More(since.first, n);
    }
  }

  /** Every accepted call was, at some event of the run, and its key is traced from there. */
  lemma {:induction false} AcceptedIsTraced(c: Config, env: Env, start: int, es: seq<Event>, id: nat)
    returns (j: nat, since: Since)
    requires Usable(c) && c.rate > 0 && env.inRange && Run(c, env, Init(c, start), es)
    requires Accepted(After(c, env, Init(c, start), es), id)
    ensures j < |es| && es[j] == Insert(id)
    ensures var call := After(c, env, Init(c, start), es).calls[id];
            Traced(c, env, start, es, j, KeyOf(c, call), call.now, since)
  {
    var n := |es| - 1;
    var s := After(c, env, Init(c, start), es[..n]);
    var call := After(c, env, Init(c, start), es).calls[id];
    if Accepted(s, id) {
      assert s.calls[id] == call;
      j, since := AcceptedIsTraced(c, env, start, es[..n], id);
      since := TracedFurther(c, env, start, es, j, KeyOf(c, call), call.now, since);
    } else {
      RunKeepsInv(c, env, start, es[..n]);
      assert CallInv(c, s, id);
      j, since := n, Nothing;
    }
  }

  /** An accepted tuple hits in every reachable state, unless two rotations took effect after the
      very event that accepted it, the later by a call whose clock reading is more than one period
      beyond that of the accepted one. */
  lemma AcceptedStaysRejected(c: Config, env: Env, start: int, es: seq<Event>, id: nat)
    requires Usable(c) && c.rate > 0 && env.inRange && Run(c, env, Init(c, start), es)
    requires Accepted(After(c, env, Init(c, start), es), id)
    ensures var s := After(c, env, Init(c, start), es);
            || Hit(c, s.filter, KeyOf(c, s.calls[id]))
            || exists j: nat, k: nat, i: nat ::
                 && j < k < i && i < |es| && es[j] == Insert(id)
                 && TookEffect(c, env, start, es, k) && TookEffect(c, env, start, es, i)
                 && Reading(c, env, start, es, i) > s.calls[id].now + c.rate
  {
    var s := After(c, env, Init(c, start), es);
    RunKeepsInv(c, env, start, es);
    var j, since := AcceptedIsTraced(c, env, start, es, id);
    if !since.More? {
      CoveredKeysHit(c, s, KeyOf(c, s.calls[id]));
    }
  }

  /** In every run, whatever the clock and the timestamps: the blooms hold exactly the bits of the keys
      of the two generations. */
  lemma {:induction false} RunCovers(c: Config, env: Env, start: int, es: seq<Event>)
    requires Usable(c) && Run(c, env, Init(c, start), es)
    ensures var s := After(c, env, Init(c, start), es);
            Covers(c, s.filter.curr, s.currKeys) && Covers(c, s.filter.prev, s.prevKeys)
  {
    if es != [] {
      var n := |es| - 1;
      RunCovers(c, env, start, es[..n]);
      var s := After(c, env, Init(c, start), es[..n]);
      if es[n].Insert? {
        CoversAdd(c, s.filter.curr, s.currKeys, KeyOf(c, s.calls[es[n].id]));
      }
    }
  }

  /** Event j of the run accepted a call. */
  ghost predicate Accepts(c: Config, env: Env, start: int, es: seq<Event>, j: nat)
    requires Usable(c)
  {
    && j < |es| && es[j].Insert? && Run(c, env, Init(c, start), es[..j + 1])
    && Accepted(After(c, env, Init(c, start), es[..j + 1]), es[j].id)
  }

  ghost function AcceptedCall(c: Config, env: Env, start: int, es: seq<Event>, j: nat): Call
    requires Usable(c) && Accepts(c, env, start, es, j)
  {
    After(c, env, Init(c, start), es[..j + 1]).calls[es[j].id]
  }

  /** How many rotations took effect after event j. */
  ghost function RotationsSince(c: Config, env: Env, start: int, es: seq<Event>, j: nat): nat
    requires Usable(c)
  {
    if |es| <= j + 1 then 0 else
    RotationsSince(c, env, start, es[..|es| - 1], j) + if TookEffect(c, env, start, es, |es| - 1) then 1 else 0
  }

  /** A call of this key was accepted, g effective rotations ago. */
  ghost predicate AcceptedAgo(c: Config, env: Env, start: int, es: seq<Event>, g: nat, key: Key)
    requires Usable(c)
  {
    exists j: nat :: Accepts(c, env, start, es, j) && RotationsSince(c, env, start, es, j) == g
                     && KeyOf(c, AcceptedCall(c, env, start, es, j)) == key
  }

  lemma AcceptsStays(c: Config, env: Env, start: int, es: seq<Event>, j: nat)
    requires Usable(c) && j < |es| - 1
    ensures Accepts(c, env, start, es, j) <==> Accepts(c, env, start, es[..|es| - 1], j)
    ensures Accepts(c, env, start, es, j) ==>
              AcceptedCall(c, env, start, es, j) == AcceptedCall(c, env, start, es[..|es| - 1], j)
  {
    assert es[..|es| - 1][..j + 1] == es[..j + 1];
  }

  /** One event further: a key ages if the event rotates, and is new if the event accepts it. */
  lemma AcceptedAgoStep(c: Config, env: Env, start: int, es: seq<Event>, g: nat, key: Key)
    requires Usable(c) && es != []
    ensures var n := |es| - 1;
            var turned := TookEffect(c, env, start, es, n);
            AcceptedAgo(c, env, start, es, g, key) <==>
            || (turned && g > 0 && AcceptedAgo(c, env, start, es[..n], g - 1, key))
            || (!turned && AcceptedAgo(c, env, start, es[..n], g, key))
            || (g == 0 && Accepts(c, env, start, es, n) && KeyOf(c, AcceptedCall(c, env, start, es, n)) == key)
  {
    var n := |es| - 1;
    forall j: nat | j < n
      ensures Accepts(c, env, start, es, j) <==> Accepts(c, env, start, es[..n], j)
      ensures Accepts(c, env, start, es, j) ==>
                AcceptedCall(c, env, start, es, j) == AcceptedCall(c, env, start, es[..n], j)
      ensures RotationsSince(c, env, start, es, j) ==
              RotationsSince(c, env, start, es[..n], j) + if TookEffect(c, env, start, es, n) then 1 else 0
    {
      AcceptsStays(c, env, start, es, j);
    }
    assert RotationsSince(c, env, start, es, n) == 0;
  }

  /** In every run: the current generation holds exactly the keys accepted since the last rotation
      to take effect, the previous one exactly those accepted between the last two. */
  lemma {:induction false} GenerationsExactly(c: Config, env: Env, start: int, es: seq<Event>, key: Key)
    requires Usable(c) && Run(c, env, Init(c, start), es)
    ensures var s := After(c, env, Init(c, start), es);
            && (key in s.currKeys <==> AcceptedAgo(c, env, start, es, 0, key))
            && (key in s.prevKeys <==> AcceptedAgo(c, env, start, es, 1, key))
  {
    if es != [] {
      var n := |es| - 1;
      GenerationsExactly(c, env, start, es[..n], key);
      AcceptedAgoStep(c, env, start, es, 0, key);
      AcceptedAgoStep(c, env, start, es, 1, key);
      assert es[..n + 1] == es;
    }
  }

  /** Bit b belongs to a tuple accepted g effective rotations ago. */
  ghost predicate BitAgo(c: Config, env: Env, start: int, es: seq<Event>, g: nat, b: int)
    requires Usable(c)
  {
    exists j: nat, i: nat ::
      && Accepts(c, env, start, es, j) && RotationsSince(c, env, start, es, j) == g && i < c.hashes
      && var a := AcceptedCall(c, env, start, es, j); BitOf(c, a.ts, a.nonce, i) == b
  }

  lemma BitAgoExactly(c: Config, env: Env, start: int, es: seq<Event>, g: nat, keys: set<Key>, bits: set<nat>, b: nat)
    requires Usable(c) && Covers(c, bits, keys)
    requires forall key :: key in keys <==> AcceptedAgo(c, env, start, es, g, key)
    ensures b in bits <==> BitAgo(c, env, start, es, g, b)
  {
    if b in bits {
      var key :| key in keys && b in Positions(key, c.hashes, c.m);
      var j: nat :| Accepts(c, env, start, es, j) && RotationsSince(c, env, start, es, j) == g
                    && KeyOf(c, AcceptedCall(c, env, start, es, j)) == key;
      var a := AcceptedCall(c, env, start, es, j);
      PositionsAreTheBits(c, a.ts, a.nonce, {});
    }
    if BitAgo(c, env, start, es, g, b) {
      var j: nat, i: nat :|
        && Accepts(c, env, start, es, j) && RotationsSince(c, env, start, es, j) == g && i < c.hashes
        && var a := AcceptedCall(c, env, start, es, j); BitOf(c, a.ts, a.nonce, i) == b;
      var a := AcceptedCall(c, env, start, es, j);
      PositionsAreTheBits(c, a.ts, a.nonce, {});
      assert KeyOf(c, a) in keys;
    }
  }

  /** Every bit the tuple owns belongs to some tuple accepted g effective rotations ago. */
  ghost predicate AllBitsAgo(c: Config, env: Env, start: int, es: seq<Event>, g: nat, ts: int, nonce: bytes)
    requires Usable(c)
  {
    forall i: nat | i < c.hashes :: BitAgo(c, env, start, es, g, BitOf(c, ts, nonce, i))
  }

  lemma HitExactly(c: Config, env: Env, start: int, es: seq<Event>, ts: int, nonce: bytes)
    requires Usable(c) && Run(c, env, Init(c, start), es)
    ensures Hit(c, After(c, env, Init(c, start), es).filter, Digest(c.sha, ts, nonce)) <==>
            AllBitsAgo(c, env, start, es, 0, ts, nonce) || AllBitsAgo(c, env, start, es, 1, ts, nonce)
  {
    var s := After(c, env, Init(c, start), es);
    RunCovers(c, env, start, es);
    forall key ensures key in s.currKeys <==> AcceptedAgo(c, env, start, es, 0, key)
               ensures key in s.prevKeys <==> AcceptedAgo(c, env, start, es, 1, key)
    {
      GenerationsExactly(c, env, start, es, key);
    }
    PositionsAreTheBits(c, ts, nonce, s.filter.curr);
    PositionsAreTheBits(c, ts, nonce, s.filter.prev);
    forall i: nat | i < c.hashes
      ensures BitOf(c, ts, nonce, i) in s.filter.curr <==> BitAgo(c, env, start, es, 0, BitOf(c, ts, nonce, i))
      ensures BitOf(c, ts, nonce, i) in s.filter.prev <==> BitAgo(c, env, start, es, 1, BitOf(c, ts, nonce, i))
    {
      BitAgoExactly(c, env, start, es, 0, s.currKeys, s.filter.curr, BitOf(c, ts, nonce, i));
      BitAgoExactly(c, env, start, es, 1, s.prevKeys, s.filter.prev, BitOf(c, ts, nonce, i));
    }
  }

  /** In every run a probe or an insertion refuses its call exactly when every bit the call's tuple owns
      belongs to tuples accepted since the last rotation, or every one to tuples accepted between the
      last two; otherwise the probe lets it go on and the insertion accepts it. */
  lemma RefusedExactly(c: Config, env: Env, start: int, es: seq<Event>, id: nat)
    requires Usable(c) && Run(c, env, Init(c, start), es)
    requires id in After(c, env, Init(c, start), es).calls
    ensures var s := After(c, env, Init(c, start), es);
            var call := s.calls[id];
            var refused := AllBitsAgo(c, env, start, es, 0, call.ts, call.nonce)
                           || AllBitsAgo(c, env, start, es, 1, call.ts, call.nonce);
            && (Enabled(env, s, Probe(id)) ==>
                  Apply(c, env, s, Probe(id)).calls[id].pc == if refused then Done(Replayed) else AtInsert)
            && (Enabled(env, s, Insert(id)) ==>
                  Apply(c, env, s, Insert(id)).calls[id].pc == Done(if refused then Replayed else Fresh))
  {
    var call := After(c, env, Init(c, start), es).calls[id];
    HitExactly(c, env, start, es, call.ts, call.nonce);
  }

  /** The rotating filter refines an exact two-generation set from one side. */
  lemma RefinesTwoGenerations(c: Config, env: Env, start: int, es: seq<Event>, key: Key)
    requires Usable(c) && c.rate > 0 && env.inRange && Run(c, env, Init(c, start), es)
    ensures var s := After(c, env, Init(c, start), es);
            && Covers(c, s.filter.curr, s.currKeys) && Covers(c, s.filter.prev, s.prevKeys)
            && (key in s.currKeys || key in s.prevKeys ==> Hit(c, s.filter, key))
  {
    RunKeepsInv(c, env, start, es);
    var s := After(c, env, Init(c, start), es);
    if key in s.currKeys || key in s.prevKeys {
      CoveredKeysHit(c, s, key);
    }
  }

  /** Two calls that pass the skew test on one timestamp read clocks at most 2*skew apart. */
  lemma SkewBoundsReadings(c: Config, a: int, b: int, ts: int)
    requires c.skew < MAX_DURATION
    requires SkewOk(c, a, ts) && a - ts > MIN_DURATION
    requires SkewOk(c, b, ts) && b - ts > MIN_DURATION
    ensures 0 <= c.skew && b <= a + 2 * c.skew
  {
    assert -c.skew <= a - ts <= c.skew;
    assert -c.skew <= b - ts <= c.skew;
  }

  lemma InsertFindsEarlierAccept(c: Config, env: Env, s: State, a: nat, b: nat)
    requires Usable(c) && c.rate > 0 && c.skew < MAX_DURATION && Inv(c, s)
    requires Accepted(s, a) && Enabled(env, s, Insert(b)) && SameTuple(s, a, b)
    requires c.rate >= 2 * c.skew + env.lag
    ensures Hit(c, s.filter, KeyOf(c, s.calls[b]))
  {
    var key := KeyOf(c, s.calls[b]);
    assert CallInv(c, s, a) && CallInv(c, s, b);
    SkewBoundsReadings(c, s.calls[a].now, s.calls[b].now, s.calls[a].ts);
    assert s.filter.rotateAt <= s.calls[a].now + 2 * c.rate;
    assert key in s.currKeys || key in s.prevKeys;
    CoveredKeysHit(c, s, key);
  }

  lemma {:induction false} RunNeverDoublyAccepts(c: Config, env: Env, start: int, es: seq<Event>)
    requires Usable(c) && c.rate > 0 && c.skew < MAX_DURATION && env.inRange
    requires c.rate >= 2 * c.skew + env.lag
    requires Run(c, env, Init(c, start), es)
    ensures NoDoubleAccept(After(c, env, Init(c, start), es))
  {
    if es != [] {
      var n := |es| - 1;
      var s := After(c, env, Init(c, start), es[..n]);
      RunNeverDoublyAccepts(c, env, start, es[..n]);
      RunKeepsInv(c, env, start, es[..n]);
      var s' := Apply(c, env, s, es[n]);
      forall a, b | Accepted(s', a) && Accepted(s', b) && a != b
        ensures !SameTuple(s', a, b)
      {
        if SameTuple(s', a, b) {
          if Accepted(s, a) && Accepted(s, b) {
            assert SameTuple(s, a, b);
          } else if Accepted(s, a) {
            InsertFindsEarlierAccept(c, env, s, a, b);
          } else {
            InsertFindsEarlierAccept(c, env, s, b, a);
          }
        }
      }
    }
  }
}
