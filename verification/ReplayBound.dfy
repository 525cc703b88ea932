/**
 * The exact bound under which the replay filter is safe, and the same for calls
 * made one after another.
 */
module ReplayBound {
  import opened Bytes
  import opened Replay
  import opened ReplaySteps

  ghost predicate Reaches(c: Config, env: Env, start: int, s: State)
    requires Usable(c)
  {
    exists es :: Run(c, env, Init(c, start), es) && After(c, env, Init(c, start), es) == s
  }

  lemma ReachesInit(c: Config, env: Env, start: int)
    requires Usable(c)
    ensures Reaches(c, env, start, Init(c, start))
  {
    assert Run(c, env, Init(c, start), []);
  }

  lemma ReachesNext(c: Config, env: Env, start: int, s: State, e: Event)
    requires Usable(c) && Reaches(c, env, start, s) && Enabled(env, s, e)
    ensures Reaches(c, env, start, Apply(c, env, s, e))
  {
    var es :| Run(c, env, Init(c, start), es) && After(c, env, Init(c, start), es) == s;
    assert (es + [e])[..|es|] == es;
    assert Run(c, env, Init(c, start), es + [e]);
  }

  lemma SafeIsAboutReachableStates(c: Config, env: Env, start: int, s: State)
    requires Usable(c) && Safe(c, env) && Reaches(c, env, start, s)
    ensures NoDoubleAccept(s)
  {
  }

  predicate MayBegin(c: Config, env: Env, now: int, ts: int)
  {
    SkewOk(c, now, ts) && (env.inRange ==> now - ts > MIN_DURATION)
  }

  lemma SomePosition(c: Config, key: Key)
    requires Usable(c) && c.hashes > 0
    ensures BloomIdx(key, 0, c.m) in Positions(key, c.hashes, c.m)
  {
  }

  /** The clock moves to `now` and a call begins. */
  lemma BeginAt(c: Config, env: Env, start: int, s: State, id: nat, now: int, ts: int, nonce: bytes)
    returns (s': State)
    requires Usable(c) && Reaches(c, env, start, s)
    requires s.clock <= now && NoneOverdue(env, s, now) && id !in s.calls && MayBegin(c, env, now, ts)
    ensures Reaches(c, env, start, s')
    ensures s' == State(now, s.calls[id := Call(ts, nonce, now, AtRotate)], s.filter, s.currKeys, s.prevKeys)
  {
    ReachesNext(c, env, start, s, Tick(now));
    var s1 := Apply(c, env, s, Tick(now));
    ReachesNext(c, env, start, s1, Begin(id, ts, nonce));
    s' := Apply(c, env, s1, Begin(id, ts, nonce));
  }

  lemma RotateOne(c: Config, env: Env, start: int, s: State, id: nat) returns (s': State)
    requires Usable(c) && Reaches(c, env, start, s) && At(s, id, AtRotate)
    ensures Reaches(c, env, start, s')
    ensures s'.clock == s.clock && s'.calls == s.calls[id := s.calls[id].(pc := AtProbe)]
    ensures s'.filter == Rotated(c, s.filter, s.calls[id].now)
  {
    ReachesNext(c, env, start, s, Rotate(id));
    s' := Apply(c, env, s, Rotate(id));
  }

  /** A call past its rotation is accepted by a filter whose blooms are both empty. */
  lemma AcceptByEmpty(c: Config, env: Env, start: int, s: State, id: nat) returns (s': State)
    requires Usable(c) && c.hashes > 0 && Reaches(c, env, start, s) && At(s, id, AtProbe)
    requires s.filter.curr == {} && s.filter.prev == {}
    requires s.clock <= s.calls[id].now + env.lag
    ensures Reaches(c, env, start, s')
    ensures s'.calls == s.calls[id := s.calls[id].(pc := Done(Fresh))]
  {
    SomePosition(c, KeyOf(c, s.calls[id]));
    s' := ProbeThenInsert(c, env, start, s, id);
  }

  function FirstRotation(c: Config, start: int, a: int): int
  {
    if a >= start + c.rate then a + c.rate else start + c.rate
  }

  /** The first call of a run, made alone, is accepted. */
  lemma FirstAccepted(c: Config, env: Env, start: int, a: int, ts: int) returns (s: State)
    requires Usable(c) && c.hashes > 0 && env.lag >= 0 && start <= a && MayBegin(c, env, a, ts)
    ensures Reaches(c, env, start, s) && s.clock == a
    ensures s.calls == map[0 := Call(ts, [], a, Done(Fresh))]
    ensures s.filter == FilterState(Positions(Digest(c.sha, ts, []), c.hashes, c.m), {}, FirstRotation(c, start, a))
  {
    ReachesInit(c, env, start);
    s := CheckIsFourSteps(c, env, start, Init(c, start), 0, Request(a, ts, []));
    EmptyFilterAccepts(c, Init(c, start).filter, a, ts);
  }

  /** Call 3 rotates the last key out, and call 2 is accepted with the tuple of call 0. */
  lemma AcceptedAgain(c: Config, env: Env, start: int, s: State)
    requires Usable(c) && c.hashes > 0 && Reaches(c, env, start, s)
    requires Accepted(s, 0) && At(s, 2, AtRotate) && At(s, 3, AtRotate) && SameTuple(s, 0, 2)
    requires s.filter.curr == {} && s.filter.rotateAt <= s.calls[3].now
    requires s.clock <= s.calls[2].now + env.lag
    ensures !Safe(c, env)
  {
    var s1 := RotateOne(c, env, start, s, 3);
    var s2 := RotateOne(c, env, start, s1, 2);
    var s3 := AcceptByEmpty(c, env, start, s2, 2);
    assert Accepted(s3, 0) && Accepted(s3, 2) && SameTuple(s3, 0, 2);
    if Safe(c, env) {
      SafeIsAboutReachableStates(c, env, start, s3);
      assert false;
    }
  }

  /** One tuple, accepted at `a`, is rejected at `b` by a call that rotates; a call that rotates at
      `e` then lets in the call that presented the tuple at `d`. Every call is done within the lag. */
  lemma ForgottenAfterRejection(c: Config, env: Env, start: int, a: int, b: int, d: int, e: int, ts: int, te: int)
    requires Usable(c) && c.hashes > 0 && env.lag >= 0
    requires start <= a <= b <= d <= e
    requires MayBegin(c, env, a, ts) && MayBegin(c, env, b, ts) && MayBegin(c, env, d, ts) && MayBegin(c, env, e, te)
    requires FirstRotation(c, start, a) <= b && b + c.rate <= e && e - d <= env.lag
    ensures !Safe(c, env)
  {
    var s := FirstAccepted(c, env, start, a, ts);
    RotatedKeyIsRejected(c, s.filter, b, ts);
    s := CheckIsFourSteps(c, env, start, s, 1, Request(b, ts, []));
    s := BeginAt(c, env, start, s, 2, d, ts, []);
    s := BeginAt(c, env, start, s, 3, e, te, []);
    AcceptedAgain(c, env, start, s);
  }

  /** One tuple is accepted at `a` and presented again at once by a call that then waits; calls that
      rotate at `b` and `e` let it in. Nothing at all is older than the lag. */
  lemma ForgottenByAWaitingCall(c: Config, env: Env, start: int, a: int, b: int, e: int, ts: int, tb: int, te: int)
    requires Usable(c) && c.hashes > 0 && env.lag >= 0
    requires start <= a <= b <= e
    requires MayBegin(c, env, a, ts) && MayBegin(c, env, b, tb) && MayBegin(c, env, e, te)
    requires FirstRotation(c, start, a) <= b && b + c.rate <= e && e - a <= env.lag
    ensures !Safe(c, env)
  {
    var s := FirstAccepted(c, env, start, a, ts);
    s := BeginAt(c, env, start, s, 2, a, ts, []);
    s := BeginAt(c, env, start, s, 1, b, tb, []);
    s := RotateOne(c, env, start, s, 1);
    s := BeginAt(c, env, start, s, 3, e, te, []);
    AcceptedAgain(c, env, start, s);
  }

  predicate Int64Config(c: Config)
  {
    && Usable(c) && c.rate != 0
    && MIN_DURATION <= c.skew <= MAX_DURATION
    && MIN_DURATION <= c.rate <= MAX_DURATION
  }

  lemma ConfigureNeverLeavesRateZero(o: Options, sha: bytes -> Key)
    requires o.bits <= TWO_64 - 64
    ensures var c := Configure(o, sha); c.m > 0 && c.m % 64 == 0 && c.rate != 0 && c.skew != 0 && c.hashes != 0
  {
    RoundingIsExact(if o.bits == 0 then DEFAULT_BITS else o.bits);
  }

  lemma ShortRateForgets(c: Config, env: Env)
    requires Int64Config(c) && c.hashes > 0 && env.lag >= 0
    requires 0 <= c.skew && c.rate < 2 * c.skew + env.lag
    ensures !Safe(c, env)
  {
    if c.rate < 0 {
      ForgottenAfterRejection(c, env, 0, 0, 0, 0, 0, 0, 0);
    } else {
      var a, b, e := c.rate - 1, c.rate, 2 * c.rate;
      if c.skew == 0 {
        ForgottenByAWaitingCall(c, env, 0, a, b, e, a, b, e);
      } else {
        var d := if a + 2 * c.skew < e then a + 2 * c.skew else e;
        ForgottenAfterRejection(c, env, 0, a, b, d, e, a + c.skew, e);
      }
    }
  }

  lemma {:induction false} WithoutHashesNothingIsAccepted(c: Config, env: Env, start: int, es: seq<Event>, id: nat)
    requires Usable(c) && Run(c, env, Init(c, start), es)
    requires c.hashes <= 0 || (c.skew < 0 && env.inRange)
    ensures !Accepted(After(c, env, Init(c, start), es), id)
    ensures c.hashes > 0 ==> forall x :: x in After(c, env, Init(c, start), es).calls ==>
                                         At(After(c, env, Init(c, start), es), x, Done(Skewed))
  {
    if es != [] {
      var n := |es| - 1;
      WithoutHashesNothingIsAccepted(c, env, start, es[..n], id);
      var s := After(c, env, Init(c, start), es[..n]);
      match es[n]
      case Insert(x) =>
        assert c.hashes <= 0 ==> Positions(KeyOf(c, s.calls[x]), c.hashes, c.m) == {};
        assert Hit(c, s.filter, KeyOf(c, s.calls[x]));
      case _ =>
    }
  }

  /** The filter is safe exactly when it accepts nothing at all, or the rotation period is
      at least twice the skew plus the lag; and that whether the lag bounds every call or
      only those that come to insert. */
  lemma SafeExactly(c: Config, env: Env)
    requires Int64Config(c) && env.lag >= 0 && env.inRange
    ensures Safe(c, env) <==> c.hashes <= 0 || c.skew < 0 || c.rate >= 2 * c.skew + env.lag
  {
    if c.hashes <= 0 || c.skew < 0 {
      forall start, es | Run(c, env, Init(c, start), es)
        ensures NoDoubleAccept(After(c, env, Init(c, start), es))
      {
        forall id ensures !Accepted(After(c, env, Init(c, start), es), id) {
          WithoutHashesNothingIsAccepted(c, env, start, es, id);
        }
      }
    } else if c.rate >= 2 * c.skew + env.lag {
      forall start, es | Run(c, env, Init(c, start), es)
        ensures NoDoubleAccept(After(c, env, Init(c, start), es))
      {
        RunNeverDoublyAccepts(c, env, start, es);
      }
    } else {
      ShortRateForgets(c, env);
    }
  }

  /** The defaults tolerate a call stalled for 50 s between its clock reading and its
      locked re-check, and no longer. */
  lemma DefaultsTolerateFiftySeconds(sha: bytes -> Key, lag: nat, prompt: bool)
    ensures var c := Configure(Options(0, 0, 0, 0), sha);
            Usable(c) && (Safe(c, Env(lag, true, prompt)) <==> lag <= 50_000_000_000)
  {
    SafeExactly(Configure(Options(0, 0, 0, 0), sha), Env(lag, true, prompt));
  }

  /** Without the bound on timestamps no setting is safe: 2^63 ns ahead of the clock the
      skew test passes at every later reading too. */
  lemma UnboundedTimestampsAreNeverSafe(c: Config, lag: nat, prompt: bool)
    requires Int64Config(c) && c.hashes > 0
    ensures !Safe(c, Env(lag, false, prompt))
  {
    var r := if c.rate > 0 then c.rate else 0;
    var ts := 2 * r - MIN_DURATION;
    ForgottenAfterRejection(c, Env(lag, false, prompt), 0, 0, r, 2 * r, 2 * r, ts, ts);
  }

  // ---- One call after another ----

  datatype Request = Request(now: int, ts: int, nonce: bytes)

  /** The verdicts of a sequence of calls, and the filter they leave. */
  ghost function CheckedAll(c: Config, s: FilterState, rs: seq<Request>): (r: (seq<Verdict>, FilterState))
    requires Usable(c)
    ensures |r.0| == |rs|
  {
    if rs == [] then ([], s) else
    var n := |rs| - 1;
    var (vs, s') := CheckedAll(c, s, rs[..n]);
    var (v, s'') := Checked(c, s', rs[n].now, rs[n].ts, rs[n].nonce);
    (vs + [v], s'')
  }

  predicate Orderly(start: int, rs: seq<Request>)
  {
    && (forall i | 0 <= i < |rs| :: start <= rs[i].now && rs[i].now - rs[i].ts > MIN_DURATION)
    && (forall i, j | 0 <= i < j < |rs| :: rs[i].now <= rs[j].now)
  }

  /** What a run of `Check` calls made one by one leaves behind in the step model. */
  ghost predicate Mirrors(s: State, start: int, rs: seq<Request>, vs: seq<Verdict>, f: FilterState)
    requires |rs| == |vs|
  {
    && s.filter == f
    && s.clock == (if rs == [] then start else rs[|rs| - 1].now)
    && (forall id: nat :: id in s.calls <==> id < |rs|)
    && (forall i | 0 <= i < |rs| :: s.calls[i] == Call(rs[i].ts, rs[i].nonce, rs[i].now, Done(vs[i])))
  }

  /** The probe and, if that misses, the insertion of a call past its rotation. */
  lemma ProbeThenInsert(c: Config, env: Env, start: int, s: State, id: nat) returns (s': State)
    requires Usable(c) && Reaches(c, env, start, s) && At(s, id, AtProbe)
    requires s.clock <= s.calls[id].now + env.lag
    ensures Reaches(c, env, start, s') && s'.clock == s.clock
    ensures var key := KeyOf(c, s.calls[id]);
            if Hit(c, s.filter, key)
            then s'.filter == s.filter && s'.calls == s.calls[id := s.calls[id].(pc := Done(Replayed))]
            else s'.filter == Inserted(c, s.filter, key) && s'.calls == s.calls[id := s.calls[id].(pc := Done(Fresh))]
  {
    ReachesNext(c, env, start, s, Probe(id));
    s' := Apply(c, env, s, Probe(id));
    if !Hit(c, s.filter, KeyOf(c, s.calls[id])) {
      ReachesNext(c, env, start, s', Insert(id));
      s' := Apply(c, env, s', Insert(id));
      assert s'.calls == s.calls[id := s.calls[id].(pc := Done(Fresh))];
    }
  }

  /** The clock moves on and a call fails its skew test. */
  lemma BeginSkewed(c: Config, env: Env, start: int, s: State, id: nat, q: Request) returns (s': State)
    requires Usable(c) && Reaches(c, env, start, s)
    requires s.clock <= q.now && NoneOverdue(env, s, q.now) && id !in s.calls
    requires (env.inRange ==> q.now - q.ts > MIN_DURATION) && !SkewOk(c, q.now, q.ts)
    ensures Reaches(c, env, start, s') && s'.filter == s.filter && s'.clock == q.now
    ensures s'.calls == s.calls[id := Call(q.ts, q.nonce, q.now, Done(Skewed))]
  {
    ReachesNext(c, env, start, s, Tick(q.now));
    var s1 := Apply(c, env, s, Tick(q.now));
    ReachesNext(c, env, start, s1, Begin(id, q.ts, q.nonce));
    s' := Apply(c, env, s1, Begin(id, q.ts, q.nonce));
  }

  /** `Check` alone is the four steps of one call in a row. */
  lemma CheckIsFourSteps(c: Config, env: Env, start: int, s: State, id: nat, q: Request) returns (s': State)
    requires Usable(c) && env.lag >= 0 && Reaches(c, env, start, s)
    requires s.clock <= q.now && NoneOverdue(env, s, q.now) && id !in s.calls
    requires env.inRange ==> q.now - q.ts > MIN_DURATION
    ensures Reaches(c, env, start, s')
    ensures var (v, f) := Checked(c, s.filter, q.now, q.ts, q.nonce);
            && s'.filter == f && s'.clock == q.now
            && s'.calls == s.calls[id := Call(q.ts, q.nonce, q.now, Done(v))]
  {
    if SkewOk(c, q.now, q.ts) {
      s' := BeginAt(c, env, start, s, id, q.now, q.ts, q.nonce);
      s' := RotateOne(c, env, start, s', id);
      s' := ProbeThenInsert(c, env, start, s', id);
      assert s'.calls == s.calls[id := s'.calls[id]];
    } else {
      s' := BeginSkewed(c, env, start, s, id, q);
    }
  }

  lemma MirrorsOneMore(s: State, s': State, start: int, rs: seq<Request>, vs: seq<Verdict>, v: Verdict, f: FilterState)
    requires |rs| == |vs| + 1 && Mirrors(s, start, rs[..|vs|], vs, s.filter)
    requires s'.filter == f && s'.clock == rs[|vs|].now
    requires var q := rs[|vs|]; s'.calls == s.calls[|vs| := Call(q.ts, q.nonce, q.now, Done(v))]
    ensures Mirrors(s', start, rs, vs + [v], f)
  {
  }

  lemma {:induction false} SequentialCallsAreARun(c: Config, env: Env, start: int, rs: seq<Request>) returns (s: State)
    requires Usable(c) && env.lag >= 0 && Orderly(start, rs)
    ensures Reaches(c, env, start, s)
    ensures var (vs, f) := CheckedAll(c, Init(c, start).filter, rs); Mirrors(s, start, rs, vs, f)
  {
    if rs == [] {
      ReachesInit(c, env, start);
      s := Init(c, start);
    } else {
      var n := |rs| - 1;
      var s0 := SequentialCallsAreARun(c, env, start, rs[..n]);
      s := CheckIsFourSteps(c, env, start, s0, n, rs[n]);
      var v := Checked(c, s0.filter, rs[n].now, rs[n].ts, rs[n].nonce).0;
      MirrorsOneMore(s0, s, start, rs, CheckedAll(c, Init(c, start).filter, rs[..n]).0, v, s.filter);
    }
  }

  predicate AcceptsOnce(rs: seq<Request>, vs: seq<Verdict>)
    requires |rs| == |vs|
  {
    forall i, j | 0 <= i < j < |rs| && vs[i] == Fresh && vs[j] == Fresh ::
      !(rs[i].ts == rs[j].ts && rs[i].nonce == rs[j].nonce)
  }

  /** No tuple is accepted twice by `Check` calls made one after another. */
  ghost predicate SafeInSequence(c: Config)
    requires Usable(c)
  {
    forall start, rs | Orderly(start, rs) :: AcceptsOnce(rs, CheckedAll(c, Init(c, start).filter, rs).0)
  }

  lemma SafeCoversSequences(c: Config)
    requires Usable(c) && Safe(c, Env(0, true, true))
    ensures SafeInSequence(c)
  {
    forall start, rs: seq<Request> | Orderly(start, rs)
      ensures AcceptsOnce(rs, CheckedAll(c, Init(c, start).filter, rs).0)
    {
      var s := SequentialCallsAreARun(c, Env(0, true, true), start, rs);
      SafeIsAboutReachableStates(c, Env(0, true, true), start, s);
      var vs := CheckedAll(c, Init(c, start).filter, rs).0;
      forall i, j | 0 <= i < j < |rs| && vs[i] == Fresh && vs[j] == Fresh
        ensures !(rs[i].ts == rs[j].ts && rs[i].nonce == rs[j].nonce)
      {
        assert Accepted(s, i) && Accepted(s, j);
        assert !SameTuple(s, i, j);
      }
    }
  }

  lemma CheckedOneMore(c: Config, s: FilterState, rs: seq<Request>, q: Request)
    requires Usable(c)
    ensures var (vs, s') := CheckedAll(c, s, rs);
            var (v, s'') := Checked(c, s', q.now, q.ts, q.nonce);
            CheckedAll(c, s, rs + [q]) == (vs + [v], s'')
  {
    assert (rs + [q])[..|rs|] == rs;
  }

  lemma EmptyFilterAccepts(c: Config, s: FilterState, now: int, ts: int)
    requires Usable(c) && c.hashes > 0 && SkewOk(c, now, ts) && s.curr == {} && s.prev == {}
    ensures var bits := Positions(Digest(c.sha, ts, []), c.hashes, c.m);
            Checked(c, s, now, ts, []) ==
            (Fresh, FilterState(bits, {}, if now >= s.rotateAt then now + c.rate else s.rotateAt))
  {
    var key := Digest(c.sha, ts, []);
    SomePosition(c, key);
    assert {} + Positions(key, c.hashes, c.m) == Positions(key, c.hashes, c.m);
  }

  lemma RotatedKeyIsRejected(c: Config, s: FilterState, now: int, ts: int)
    requires Usable(c) && SkewOk(c, now, ts) && s.rotateAt <= now
    requires s.curr == Positions(Digest(c.sha, ts, []), c.hashes, c.m)
    ensures Checked(c, s, now, ts, []) == (Replayed, FilterState({}, s.curr, now + c.rate))
  {
  }

  lemma TwiceRotatedKeyIsAccepted(c: Config, s: FilterState, now: int, ts: int)
    requires Usable(c) && c.hashes > 0 && SkewOk(c, now, ts) && s.rotateAt <= now && s.curr == {}
    ensures Checked(c, s, now, ts, []).0 == Fresh
  {
    SomePosition(c, Digest(c.sha, ts, []));
  }

  lemma CheckedThree(c: Config, f: FilterState, q1: Request, q2: Request, q3: Request)
    requires Usable(c)
    ensures var (v1, f1) := Checked(c, f, q1.now, q1.ts, q1.nonce);
            var (v2, f2) := Checked(c, f1, q2.now, q2.ts, q2.nonce);
            CheckedAll(c, f, [q1, q2, q3]).0 == [v1, v2, Checked(c, f2, q3.now, q3.ts, q3.nonce).0]
  {
    CheckedOneMore(c, f, [], q1);
    CheckedOneMore(c, f, [q1], q2);
    CheckedOneMore(c, f, [q1, q2], q3);
    assert [] + [q1] == [q1] && [q1] + [q2] == [q1, q2] && [q1, q2] + [q3] == [q1, q2, q3];
  }

  /** One tuple presented three times: accepted, then rejected, then accepted again. */
  lemma ThreeCalls(c: Config, start: int, a: int, b: int, e: int, ts: int)
    requires Usable(c) && c.hashes > 0 && start <= a <= b <= e
    requires forall now | now in {a, b, e} :: SkewOk(c, now, ts) && now - ts > MIN_DURATION
    requires FirstRotation(c, start, a) <= b && b + c.rate <= e
    ensures var rs := [Request(a, ts, []), Request(b, ts, []), Request(e, ts, [])];
            Orderly(start, rs) && CheckedAll(c, Init(c, start).filter, rs).0 == [Fresh, Replayed, Fresh]
  {
    assert a in {a, b, e} && b in {a, b, e} && e in {a, b, e};
    var f := Init(c, start).filter;
    CheckedThree(c, f, Request(a, ts, []), Request(b, ts, []), Request(e, ts, []));
    EmptyFilterAccepts(c, f, a, ts);
    var f1 := Checked(c, f, a, ts, []).1;
    RotatedKeyIsRejected(c, f1, b, ts);
    TwiceRotatedKeyIsAccepted(c, Checked(c, f1, b, ts, []).1, e, ts);
  }

  lemma SafeInSequenceExactly(c: Config)
    requires Int64Config(c)
    ensures SafeInSequence(c) <==> c.hashes <= 0 || c.skew < 0 || c.rate >= 2 * c.skew
  {
    if c.hashes <= 0 || c.skew < 0 || c.rate >= 2 * c.skew {
      SafeExactly(c, Env(0, true, true));
      SafeCoversSequences(c);
    } else {
      var a, b, e := if c.rate < 0 then 0 else c.rate - 1, if c.rate < 0 then 0 else c.rate,
                     if c.rate < 0 then 0 else 2 * c.rate;
      var ts := a + c.skew;
      ThreeCalls(c, 0, a, b, e, ts);
      var rs := [Request(a, ts, []), Request(b, ts, []), Request(e, ts, [])];
      assert !AcceptsOnce(rs, CheckedAll(c, Init(c, 0).filter, rs).0) by {
        assert rs[0].ts == rs[2].ts && rs[0].nonce == rs[2].nonce;
      }
    }
  }
}
