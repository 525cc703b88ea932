/**
 * The anti-replay filter: two bloom filters that rotate on a cadence.
 *
 * Times and durations are nanoseconds. SHA-256 is a function of its input and
 * nothing more; no claim below needs it to be free of collisions.
 */
module Replay {
  import opened Bytes
  import opened PackedBits

  const DEFAULT_BITS: nat := 0x1000_0000
  const DEFAULT_HASHES: int := 7
  const DEFAULT_SKEW: int := 5_000_000_000
  const DEFAULT_ROTATE: int := 60_000_000_000

  const MAX_DURATION: int := 0x7FFF_FFFF_FFFF_FFFF
  const MIN_DURATION: int := -0x8000_0000_0000_0000

  type Key = k: bytes | |k| == 32 witness seq(32, _ => 0)

  datatype Options = Options(bits: nat, hashes: int, skew: int, rate: int)

  datatype Config = Config(m: nat, hashes: int, skew: int, rate: int, sha: bytes -> Key)

  /** Rounding up to whole words, in uint64 arithmetic. */
  function RoundedBits(bits: nat): nat
  {
    if bits % 64 != 0 then (bits + (64 - bits % 64)) % TWO_64 else bits
  }

  /** For every uint64 the rounding is the least word multiple above, unless that is 2^64. */
  lemma RoundingIsExact(bits: nat)
    requires 0 < bits < TWO_64
    ensures RoundedBits(bits) % 64 == 0
    ensures RoundedBits(bits) == 0 <==> bits > TWO_64 - 64
    ensures bits <= TWO_64 - 64 ==> bits <= RoundedBits(bits) < bits + 64
  {
    var up := bits + (64 - bits % 64);
    assert bits == bits / 64 * 64 + bits % 64;
    assert up == (bits / 64 + 1) * 64;
    if bits % 64 != 0 {
      if up < TWO_64 {
        assert up % TWO_64 == up;
      } else {
        assert bits / 64 < TWO_64 / 64;
        assert up == TWO_64;
      }
    }
  }

  /** What `New` makes of its options: zero values take the defaults. */
  function Configure(o: Options, sha: bytes -> Key): Config
  {
    Config(RoundedBits(if o.bits == 0 then DEFAULT_BITS else o.bits),
           if o.hashes == 0 then DEFAULT_HASHES else o.hashes,
           if o.skew == 0 then DEFAULT_SKEW else o.skew,
           if o.rate == 0 then DEFAULT_ROTATE else o.rate,
           sha)
  }

  /** With no bits the first probe would divide by zero, so there must be none. */
  predicate Probes(k: int, m: nat)
  {
    k <= 0 || m > 0
  }

  predicate Usable(c: Config)
  {
    Probes(c.hashes, c.m)
  }

  function BloomIdx(key: Key, i: nat, m: nat): (j: nat)
    requires m > 0
    ensures j < m
  {
    (FromBE(key[0..8]) + i * FromBE(key[8..16])) % TWO_64 % m
  }

  /** The bits a key owns in a filter of m bits with k hashes. */
  ghost function Positions(key: Key, k: int, m: nat): set<nat>
    requires Probes(k, m)
  {
    set i: nat | i < k :: BloomIdx(key, i, m)
  }

  /** The hash input: the timestamp as a uint64, then the nonce. */
  function DigestInput(ts: int, nonce: bytes): bytes
  {
    BE(ts % TWO_64, 8) + nonce
  }

  function Digest(sha: bytes -> Key, ts: int, nonce: bytes): Key
  {
    sha(DigestInput(ts, nonce))
  }

  /** Two tuples hash the same bytes exactly when nonces agree and timestamps agree modulo 2^64. */
  lemma DigestInputsTellTuplesApart(ts: int, nonce: bytes, ts': int, nonce': bytes)
    ensures DigestInput(ts, nonce) == DigestInput(ts', nonce') <==> ts % TWO_64 == ts' % TWO_64 && nonce == nonce'
  {
    var s, s' := DigestInput(ts, nonce), DigestInput(ts', nonce');
    assert s[..8] == BE(ts % TWO_64, 8) && s[8..] == nonce;
    assert s'[..8] == BE(ts' % TWO_64, 8) && s'[8..] == nonce';
    if s == s' {
      EightBytes();
      BEInjective(ts % TWO_64, ts' % TWO_64, 8);
    }
  }

  /** The i-th bit a tuple owns, on the bytes of its digest: h1 + i*h2 in uint64 arithmetic, reduced to m. */
  function BitOf(c: Config, ts: int, nonce: bytes, i: nat): int
    requires c.m > 0
  {
    var d := c.sha(BE(ts % TWO_64, 8) + nonce);
    (Uint64At(d, 0) + i * Uint64At(d, 8)) % TWO_64 % c.m
  }

  lemma BloomIdxIsBitOf(c: Config, ts: int, nonce: bytes, i: nat)
    requires c.m > 0
    ensures BloomIdx(Digest(c.sha, ts, nonce), i, c.m) == BitOf(c, ts, nonce, i)
    ensures Digest(c.sha, ts, nonce) == c.sha(BE(ts % 0x1_0000_0000_0000_0000, 8) + nonce)
  {
    var d := c.sha(BE(ts % TWO_64, 8) + nonce);
    FromBEOfEight(d, 0);
    FromBEOfEight(d, 8);
  }

  /** Double hashing: a digest that opens with the uint64s a and b owns the bits a + i*b. */
  lemma DoubleHashing(a: nat, b: nat, tail: bytes, i: nat, m: nat)
    requires a < TWO_64 && b < TWO_64 && |tail| == 16 && m > 0
    ensures BloomIdx(BE(a, 8) + BE(b, 8) + tail, i, m) == (a + i * b) % TWO_64 % m
  {
    var key := BE(a, 8) + BE(b, 8) + tail;
    EightBytes();
    FromBEInverse(a, 8);
    FromBEInverse(b, 8);
    assert key[0..8] == BE(a, 8) && key[8..16] == BE(b, 8);
  }

  /** All the bits a tuple owns are among these. */
  predicate AllBitsIn(c: Config, ts: int, nonce: bytes, bits: set<nat>)
    requires Usable(c)
  {
    forall i: nat | i < c.hashes :: BitOf(c, ts, nonce, i) in bits
  }

  lemma PositionsAreTheBits(c: Config, ts: int, nonce: bytes, bits: set<nat>)
    requires Usable(c)
    ensures Positions(Digest(c.sha, ts, nonce), c.hashes, c.m) <= bits <==> AllBitsIn(c, ts, nonce, bits)
    ensures forall j: nat :: j in Positions(Digest(c.sha, ts, nonce), c.hashes, c.m) <==>
                             exists i: nat :: i < c.hashes && j == BitOf(c, ts, nonce, i)
  {
    var key := Digest(c.sha, ts, nonce);
    forall i: nat | i < c.hashes
      ensures BloomIdx(key, i, c.m) == BitOf(c, ts, nonce, i)
      ensures BitOf(c, ts, nonce, i) in Positions(key, c.hashes, c.m)
    {
      BloomIdxIsBitOf(c, ts, nonce, i);
    }
  }

  /** `Time.Sub` saturates. */
  function GoSub(a: int, b: int): int
  {
    if a - b > MAX_DURATION then MAX_DURATION
    else if a - b < MIN_DURATION then MIN_DURATION
    else a - b
  }

  /** `abs` negates in 64 bits, so the least duration stays negative. */
  function GoAbs(d: int): int
  {
    if d < 0 then (if d == MIN_DURATION then MIN_DURATION else -d) else d
  }

  predicate SkewOk(c: Config, now: int, ts: int)
  {
    GoAbs(GoSub(now, ts)) <= c.skew
  }

  /** The abstract filter: the positions set in each bloom, and the next rotation. */
  datatype FilterState = FilterState(curr: set<nat>, prev: set<nat>, rotateAt: int)

  datatype Verdict = Fresh | Skewed | Replayed

  ghost function Rotated(c: Config, s: FilterState, now: int): FilterState
  {
    if now >= s.rotateAt then FilterState({}, s.curr, now + c.rate) else s
  }

  ghost predicate Hit(c: Config, s: FilterState, key: Key)
    requires Usable(c)
  {
    Positions(key, c.hashes, c.m) <= s.curr || Positions(key, c.hashes, c.m) <= s.prev
  }

  ghost function Inserted(c: Config, s: FilterState, key: Key): FilterState
    requires Usable(c)
  {
    s.(curr := s.curr + Positions(key, c.hashes, c.m))
  }

  /** One whole `Check` with nothing running beside it. */
  ghost function Checked(c: Config, s: FilterState, now: int, ts: int, nonce: bytes): (Verdict, FilterState)
    requires SkewOk(c, now, ts) ==> Usable(c)
  {
    if !SkewOk(c, now, ts) then (Skewed, s) else
    var s' := Rotated(c, s, now);
    var key := Digest(c.sha, ts, nonce);
    if Hit(c, s', key) then (Replayed, s') else (Fresh, Inserted(c, s', key))
  }

  lemma PositionsStep(key: Key, i: nat, m: nat)
    requires m > 0
    ensures Positions(key, i + 1, m) == Positions(key, i, m) + {BloomIdx(key, i, m)}
  {
  }

  class Bloom {
    const m: nat
    const bits: array<word>

    predicate Valid()
    {
      bits.Length * 64 == m
    }

    ghost function Bits(): set<nat>
      reads bits
    {
      SetBits(bits[..])
    }

    constructor (m: nat)
      requires m % 64 == 0
      ensures Valid() && this.m == m && fresh(bits)
      ensures Bits() == {}
    {
      this.m := m;
      bits := new word[m / 64](_ => 0);
      new;
      ZeroWordsHoldNothing(bits[..]);
    }

    method Add(key: Key, k: int)
      requires Valid() && Probes(k, m)
      modifies bits
      ensures Bits() == old(Bits()) + Positions(key, k, m)
    {
      var i := 0;
      assert Positions(key, 0, m) == {};
      while i < k
        invariant 0 <= i && (i <= k || i == 0)
        invariant Bits() == old(Bits()) + Positions(key, i, m)
      {
        var idx := BloomIdx(key, i, m);
        SetOneBit(bits[..], idx);
        PositionsStep(key, i, m);
        ghost var before := bits[..];
        bits[idx / 64] := OrWord(bits[idx / 64], idx % 64);
        assert bits[..] == before[idx / 64 := OrWord(before[idx / 64], idx % 64)];
        i := i + 1;
      }
      assert Positions(key, i, m) == Positions(key, k, m);
    }

    method Contains(key: Key, k: int) returns (all: bool)
      requires Valid() && Probes(k, m)
      ensures all <==> Positions(key, k, m) <= Bits()
    {
      var i := 0;
      while i < k
        invariant 0 <= i && (i <= k || i == 0)
        invariant Positions(key, i, m) <= Bits()
      {
        var idx := BloomIdx(key, i, m);
        PositionsStep(key, i, m);
        if !TestBit(bits[idx / 64], idx % 64) {
          assert idx in Positions(key, k, m);
          return false;
        }
        assert IsSet(bits[..], idx);
        i := i + 1;
      }
      assert Positions(key, i, m) == Positions(key, k, m);
      return true;
    }
  }

  /** `Filter`; the clock is an argument of each call, the lock is one call at a time. */
  class Filter {
    const cfg: Config
    var curr: Bloom
    var prev: Bloom
    var rotateAt: int

    ghost predicate Valid()
      reads this
    {
      && curr.Valid() && prev.Valid()
      && curr.m == prev.m == cfg.m
      && curr.bits != prev.bits
    }

    ghost function Abstract(): FilterState
      reads this, curr.bits, prev.bits
    {
      FilterState(curr.Bits(), prev.Bits(), rotateAt)
    }

    /** Above 2^64 - 64 bits the source's rounding wraps, and the filter has no bits. */
    constructor (o: Options, sha: bytes -> Key, now: int)
      requires o.bits < TWO_64
      ensures Valid() && cfg == Configure(o, sha)
      ensures Abstract() == FilterState({}, {}, now + cfg.rate)
      ensures fresh(curr.bits) && fresh(prev.bits)
    {
      var bits := if o.bits == 0 then DEFAULT_BITS else o.bits;
      RoundingIsExact(bits);
      var c := Configure(o, sha);
      cfg := c;
      curr := new Bloom(c.m);
      prev := new Bloom(c.m);
      rotateAt := now + c.rate;
    }

    method MaybeRotate(now: int)
      requires Valid()
      modifies this
      ensures Valid() && Abstract() == Rotated(cfg, old(Abstract()), now)
      ensures curr == old(curr) || fresh(curr.bits)
    {
      if now >= rotateAt {
        prev := curr;
        curr := new Bloom(cfg.m);
        rotateAt := now + cfg.rate;
      }
    }

    method Check(now: int, ts: int, nonce: bytes) returns (v: Verdict)
      requires Valid() && (SkewOk(cfg, now, ts) ==> Usable(cfg))
      modifies this, curr.bits
      ensures Valid()
      ensures (v, Abstract()) == Checked(cfg, old(Abstract()), now, ts, nonce)
    {
      if GoAbs(GoSub(now, ts)) > cfg.skew {
        return Skewed;
      }
      MaybeRotate(now);
      var key := Digest(cfg.sha, ts, nonce);
      var hit := curr.Contains(key, cfg.hashes);
      if !hit {
        hit := prev.Contains(key, cfg.hashes);
      }
      if hit {
        return Replayed;
      }
      hit := curr.Contains(key, cfg.hashes);
      if !hit {
        hit := prev.Contains(key, cfg.hashes);
      }
      if hit {
        return Replayed;
      }
      curr.Add(key, cfg.hashes);
      return Fresh;
    }
  }

  /** The skew test is the absolute difference, except that it lets through every timestamp
      2^63 ns or more ahead of the server, and everything if the skew is the largest duration. */
  lemma SkewTestIsExact(c: Config, now: int, ts: int)
    requires MIN_DURATION <= c.skew <= MAX_DURATION
    ensures SkewOk(c, now, ts) <==>
            c.skew == MAX_DURATION || -c.skew <= now - ts <= c.skew || now - ts <= MIN_DURATION
  {
  }

  predicate PassesSkew(c: Config, now: int, ts: int)
  {
    c.skew == MAX_DURATION || -c.skew <= now - ts <= c.skew || now - ts <= MIN_DURATION
  }

  /** The verdict of one call and the filter it leaves, bit by bit: a tuple is refused exactly when,
      once a rotation that is due has been made, one bloom holds every bit it owns; and what is
      accepted adds exactly the bits it owns to the current bloom. */
  lemma VerdictExactly(c: Config, s: FilterState, now: int, ts: int, nonce: bytes)
    requires MIN_DURATION <= c.skew <= MAX_DURATION && Usable(c)
    ensures var (v, s') := Checked(c, s, now, ts, nonce);
            var due := now >= s.rotateAt;
            var curr, prev := if due then {} else s.curr, if due then s.curr else s.prev;
            && (v == Skewed <==> !PassesSkew(c, now, ts))
            && (v == Replayed <==>
                PassesSkew(c, now, ts) && (AllBitsIn(c, ts, nonce, curr) || AllBitsIn(c, ts, nonce, prev)))
            && (v == Skewed ==> s' == s)
            && (v != Skewed ==> s'.prev == prev && s'.rotateAt == if due then now + c.rate else s.rotateAt)
            && (v == Replayed ==> s'.curr == curr)
            && (v == Fresh ==> forall j: nat ::
                  j in s'.curr <==> j in curr || exists i: nat :: i < c.hashes && j == BitOf(c, ts, nonce, i))
  {
    SkewTestIsExact(c, now, ts);
    PositionsAreTheBits(c, ts, nonce, Rotated(c, s, now).curr);
    PositionsAreTheBits(c, ts, nonce, Rotated(c, s, now).prev);
  }

  /** What `New` makes of each option: a zero takes the default, anything else is kept in its own
      field, the bit count rounded up to whole words. */
  lemma ConfigureExactly(o: Options, sha: bytes -> Key)
    ensures var c := Configure(o, sha);
            && (o.bits == 0 ==> c.m == 0x1000_0000)
            && (0 < o.bits <= TWO_64 - 64 ==> c.m % 64 == 0 && o.bits <= c.m < o.bits + 64)
            && (TWO_64 - 64 < o.bits < TWO_64 ==> c.m == 0)
            && c.hashes == (if o.hashes == 0 then 7 else o.hashes)
            && c.skew == (if o.skew == 0 then 5_000_000_000 else o.skew)
            && c.rate == (if o.rate == 0 then 60_000_000_000 else o.rate)
            && c.sha == sha
  {
    if 0 < o.bits < TWO_64 {
      RoundingIsExact(o.bits);
    }
  }

  ghost function AddedAll(bits: set<nat>, keys: seq<Key>, k: int, m: nat): set<nat>
    requires Probes(k, m)
  {
    if keys == [] then bits
    else AddedAll(bits, keys[..|keys| - 1], k, m) + Positions(keys[|keys| - 1], k, m)
  }

  /** A bit is set after any sequence of adds exactly when it was, or some added key hashes to it. */
  lemma {:induction false} BitsAreTheAddedPositions(bits: set<nat>, keys: seq<Key>, k: int, m: nat, j: nat)
    requires Probes(k, m)
    ensures j in AddedAll(bits, keys, k, m) <==>
            j in bits || exists key :: key in keys && j in Positions(key, k, m)
  {
    if keys != [] {
      var n := |keys| - 1;
      BitsAreTheAddedPositions(bits, keys[..n], k, m, j);
      assert forall key :: key in keys <==> key in keys[..n] || key == keys[n];
    }
  }

  /** Adds commute and repeat for free: only the set of keys added matters. */
  lemma AddsDependOnTheKeySetOnly(bits: set<nat>, xs: seq<Key>, ys: seq<Key>, k: int, m: nat)
    requires Probes(k, m)
    requires forall key :: key in xs <==> key in ys
    ensures AddedAll(bits, xs, k, m) == AddedAll(bits, ys, k, m)
  {
    forall j: nat ensures j in AddedAll(bits, xs, k, m) <==> j in AddedAll(bits, ys, k, m) {
      BitsAreTheAddedPositions(bits, xs, k, m, j);
      BitsAreTheAddedPositions(bits, ys, k, m, j);
    }
  }
}
