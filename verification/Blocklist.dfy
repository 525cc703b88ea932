/** The bloom filter of blocked hosts. FNV-1a is a function of the bytes it is fed. */
module Blocklist {
  import opened Wrappers
  import opened Bytes
  import opened PackedBits
  import opened Pipe
  import opened Normalize
  import Replay

  datatype Params = Params(m: nat, k: int, fnv: bytes -> nat)

  /** With no bits the first probe would divide by zero, so there must be none. */
  predicate Usable(p: Params)
  {
    Replay.Probes(p.k, p.m)
  }

  function Idx(p: Params, v: bytes, i: nat): (j: nat)
    requires p.m > 0
    ensures j < p.m
  {
    p.fnv([i % 256] + v) % TWO_64 % p.m
  }

  ghost function Positions(p: Params, v: bytes, k: int): set<nat>
    requires Replay.Probes(k, p.m)
  {
    set i: nat | i < k :: Idx(p, v, i)
  }

  // The encodings in UTF-8 of the white space that `unicode.IsSpace` knows, by their length:
  // U+0009 to U+000D and U+0020; U+0085 and U+00A0; U+1680, U+2000 to U+200A, U+2028, U+2029,
  // U+202F, U+205F and U+3000.

  predicate Space1(a: byte)
  {
    9 <= a <= 13 || a == 0x20
  }

  predicate Space2(a: byte, b: byte)
  {
    a == 0xC2 && (b == 0x85 || b == 0xA0)
  }

  predicate Space3(a: byte, b: byte, c: byte)
  {
    || (a == 0xE1 && b == 0x9A && c == 0x80)
    || (a == 0xE2 && b == 0x80 && (0x80 <= c <= 0x8A || c == 0xA8 || c == 0xA9 || c == 0xAF))
    || (a == 0xE2 && b == 0x81 && c == 0x9F)
    || (a == 0xE3 && b == 0x80 && c == 0x80)
  }

  predicate IsSpace(s: bytes)
  {
    || (|s| == 1 && Space1(s[0]))
    || (|s| == 2 && Space2(s[0], s[1]))
    || (|s| == 3 && Space3(s[0], s[1], s[2]))
  }

  /** How many bytes the space at the front takes, or 0. */
  function SpaceInFront(s: bytes): (n: nat)
    ensures n <= |s|
  {
    if |s| >= 1 && Space1(s[0]) then 1
    else if |s| >= 2 && Space2(s[0], s[1]) then 2
    else if |s| >= 3 && Space3(s[0], s[1], s[2]) then 3
    else 0
  }

  function SpaceAtEnd(s: bytes): (n: nat)
    ensures n <= |s|
  {
    var k := |s|;
    if k >= 1 && Space1(s[k - 1]) then 1
    else if k >= 2 && Space2(s[k - 2], s[k - 1]) then 2
    else if k >= 3 && Space3(s[k - 3], s[k - 2], s[k - 1]) then 3
    else 0
  }

  lemma NoneAtTheEnds(s: bytes, k: nat)
    requires k <= |s|
    ensures SpaceInFront(s) == 0 ==> !IsSpace(s[..k])
    ensures SpaceAtEnd(s) == 0 ==> !IsSpace(s[k..])
  {
  }

  function TrimLeft(s: bytes): bytes
    decreases |s|
  {
    var n := SpaceInFront(s);
    if n == 0 then s else TrimLeft(s[n..])
  }

  function TrimRight(s: bytes): bytes
    decreases |s|
  {
    var n := SpaceAtEnd(s);
    if n == 0 then s else TrimRight(s[..|s| - n])
  }

  function TrimSpace(s: bytes): bytes
  {
    TrimRight(TrimLeft(s))
  }

  predicate AllSpace(spaces: seq<bytes>)
  {
    forall i | 0 <= i < |spaces| :: IsSpace(spaces[i])
  }

  lemma TrimLeftStep(s: bytes) returns (first: bytes, behind: bytes)
    requires SpaceInFront(s) > 0
    ensures s == first + behind && IsSpace(first) && TrimLeft(s) == TrimLeft(behind) && |behind| < |s|
  {
    var n := SpaceInFront(s);
    first, behind := s[..n], s[n..];
  }

  lemma {:induction false} TrimLeftCuts(s: bytes) returns (left: seq<bytes>)
    ensures s == Concat(left) + TrimLeft(s) && AllSpace(left)
    ensures SpaceInFront(TrimLeft(s)) == 0
    decreases |s|
  {
    left := [];
    if SpaceInFront(s) > 0 {
      var first, behind := TrimLeftStep(s);
      left := TrimLeftCuts(behind);
      Regroup(first, Concat(left), TrimLeft(behind));
      left := [first] + left;
    }
  }

  lemma PutBehind(front: bytes, t: bytes, right: seq<bytes>, last: bytes)
    requires front == t + Concat(right)
    ensures front + last == t + Concat(right + [last])
  {
    ConcatAppend(right, [last]);
    ConcatOne(last);
    Regroup(t, Concat(right), last);
  }

  lemma TrimRightStep(s: bytes) returns (front: bytes, last: bytes)
    requires SpaceAtEnd(s) > 0
    ensures s == front + last && IsSpace(last) && TrimRight(s) == TrimRight(front) && |front| < |s|
  {
    var k := |s| - SpaceAtEnd(s);
    front, last := s[..k], s[k..];
  }

  lemma {:induction false} TrimRightCuts(s: bytes) returns (right: seq<bytes>)
    ensures s == TrimRight(s) + Concat(right) && AllSpace(right)
    ensures SpaceAtEnd(TrimRight(s)) == 0
    decreases |s|
  {
    if SpaceAtEnd(s) == 0 {
      right := [];
    } else {
      var front, last := TrimRightStep(s);
      var fewer := TrimRightCuts(front);
      PutBehind(front, TrimRight(front), fewer, last);
      right := fewer + [last];
    }
  }

  lemma FrontStaysUnspaced(s: bytes, t: bytes)
    requires t <= s && SpaceInFront(s) == 0
    ensures SpaceInFront(t) == 0
  {
  }

  /** Trimming takes off space at both ends, all of it, and nothing else: what it takes off is made
      of encoded spaces, and no encoded space opens or closes what it leaves. */
  lemma TrimSpaceCutsBothEnds(s: bytes) returns (left: seq<bytes>, right: seq<bytes>)
    ensures s == Concat(left) + TrimSpace(s) + Concat(right) && AllSpace(left) && AllSpace(right)
    ensures forall k: nat | k <= |TrimSpace(s)| :: !IsSpace(TrimSpace(s)[..k]) && !IsSpace(TrimSpace(s)[k..])
  {
    left := TrimLeftCuts(s);
    right := TrimRightCuts(TrimLeft(s));
    var t := TrimSpace(s);
    FrontStaysUnspaced(TrimLeft(s), t);
    Regroup(Concat(left), t, Concat(right));
    forall k: nat | k <= |t| ensures !IsSpace(t[..k]) && !IsSpace(t[k..]) {
      NoneAtTheEnds(t, k);
    }
  }

  const NEWLINE: byte := 10

  /** `Split(text, "\n")`. */
  function Lines(text: bytes): (ls: seq<bytes>)
    ensures ls != []
  {
    var first := Before(text, {NEWLINE});
    if |first| == |text| then [first] else [first] + Lines(text[|first| + 1..])
  }

  /** Splitting loses nothing: the lines joined by newlines are the text, and none holds one. */
  lemma {:induction false} LinesPartition(text: bytes)
    ensures Joined(Lines(text)) == text
    ensures forall i | 0 <= i < |Lines(text)| :: 10 !in Lines(text)[i]
  {
    var first := Before(text, {NEWLINE});
    if |first| < |text| {
      LinesPartition(text[|first| + 1..]);
      assert text == first + [NEWLINE] + text[|first| + 1..];
      assert Lines(text)[1..] == Lines(text[|first| + 1..]);
    }
  }

  function Joined(ls: seq<bytes>): bytes
    requires ls != []
  {
    if |ls| == 1 then ls[0] else ls[0] + [NEWLINE] + Joined(ls[1..])
  }

  function Entry(line: bytes): bytes
  {
    Normalize.Normalize(TrimSpace(line))
  }

  predicate Keeps(v: bytes)
  {
    v != [] && v[0] != HASH
  }

  /** The comment test is never what keeps a line out: an entry cannot begin with '#'. */
  lemma KeepsExactlyNonEmptyEntries(line: bytes)
    ensures Keeps(Entry(line)) <==> Entry(line) != []
  {
    OutputIsClean(TrimSpace(line));
  }

  /** Which lines that begin with '#' are loaded all the same: those with a "://" behind which, not
      counting a lone dot, something stands that does not open with a stop. */
  lemma CommentIsLoadedExactly(line: bytes)
    requires TrimSpace(line) != [] && TrimSpace(line)[0] == HASH
    ensures var t := TrimSpace(line);
            var i := IndexMark(t);
            Keeps(Entry(line)) <==>
            i >= 0 && var rest := t[i + 3..]; rest != [] && rest != [DOT] && rest[0] !in STOPS
  {
    CommentExactly(TrimSpace(line));
    KeepsExactlyNonEmptyEntries(line);
  }

  function Kept(vs: seq<bytes>): seq<bytes>
  {
    if vs == [] then []
    else
      var kept, v := Kept(vs[..|vs| - 1]), vs[|vs| - 1];
      if Keeps(v) then kept + [v] else kept
  }

  lemma {:induction false} KeptExactly(vs: seq<bytes>, v: bytes)
    ensures v in Kept(vs) <==> v in vs && Keeps(v)
  {
    if vs != [] {
      KeptExactly(vs[..|vs| - 1], v);
      assert v in vs <==> v in vs[..|vs| - 1] || v == vs[|vs| - 1];
    }
  }

  function NormalForms(lines: seq<bytes>): (vs: seq<bytes>)
    ensures |vs| == |lines| && forall i | 0 <= i < |lines| :: vs[i] == Entry(lines[i])
  {
    seq(|lines|, i requires 0 <= i < |lines| => Entry(lines[i]))
  }

  /** What loading the lines adds, in order. */
  function Entries(lines: seq<bytes>): seq<bytes>
  {
    Kept(NormalForms(lines))
  }

  function OneEntry(kept: seq<bytes>, line: bytes): seq<bytes>
  {
    if Keeps(Entry(line)) then kept + [Entry(line)] else kept
  }

  /** The entries among the first i lines. */
  function EntriesUpTo(lines: seq<bytes>, i: nat): seq<bytes>
    requires i <= |lines|
  {
    Kept(NormalForms(lines)[..i])
  }

  lemma OneMoreEntry(lines: seq<bytes>, i: nat)
    requires i < |lines|
    ensures EntriesUpTo(lines, i + 1) == OneEntry(EntriesUpTo(lines, i), lines[i])
    ensures Keeps(Entry(lines[i])) ==> Entries(lines) != []
  {
    var vs := NormalForms(lines);
    assert vs[..i + 1][..i] == vs[..i];
    KeptExactly(vs, vs[i]);
  }

  lemma AllEntries(lines: seq<bytes>)
    ensures EntriesUpTo(lines, |lines|) == Entries(lines)
  {
    assert NormalForms(lines)[..|lines|] == NormalForms(lines);
  }

  ghost function BitsAfter(p: Params, bits: set<nat>, entries: seq<bytes>): set<nat>
    requires Usable(p) || entries == []
  {
    if entries == [] then bits
    else BitsAfter(p, bits, entries[..|entries| - 1]) + Positions(p, entries[|entries| - 1], p.k)
  }

  lemma BitsAfterOneMore(p: Params, bits: set<nat>, entries: seq<bytes>, v: bytes)
    requires Usable(p)
    ensures BitsAfter(p, bits, entries + [v]) == BitsAfter(p, bits, entries) + Positions(p, v, p.k)
  {
    assert (entries + [v])[..|entries|] == entries;
  }

  lemma PositionsStep(p: Params, v: bytes, i: nat)
    requires p.m > 0
    ensures Positions(p, v, i + 1) == Positions(p, v, i) + {Idx(p, v, i)}
  {
  }

  class Set {
    const p: Params
    const bits: array<word>
    var numItems: nat

    predicate Valid()
    {
      bits.Length * 64 == p.m
    }

    ghost function Bits(): set<nat>
      reads bits
    {
      SetBits(bits[..])
    }

    constructor (m: nat, k: int, fnv: bytes -> nat)
      requires m < TWO_64
      ensures Valid() && p == Params(Replay.RoundedBits(m), k, fnv) && fresh(bits)
      ensures Bits() == {} && numItems == 0
    {
      if m > 0 {
        Replay.RoundingIsExact(m);
      }
      p := Params(Replay.RoundedBits(m), k, fnv);
      bits := new word[Replay.RoundedBits(m) / 64](_ => 0);
      numItems := 0;
      new;
      ZeroWordsHoldNothing(bits[..]);
    }

    method Add(v: bytes)
      requires Valid() && Usable(p)
      modifies this, bits
      ensures Bits() == old(Bits()) + Positions(p, v, p.k)
      ensures numItems == old(numItems) + 1
    {
      var i := 0;
      assert Positions(p, v, 0) == {};
      while i < p.k
        invariant 0 <= i && (i <= p.k || i == 0)
        invariant Bits() == old(Bits()) + Positions(p, v, i)
        invariant numItems == old(numItems)
      {
        var idx := Idx(p, v, i);
        SetOneBit(bits[..], idx);
        PositionsStep(p, v, i);
        ghost var before := bits[..];
        bits[idx / 64] := OrWord(bits[idx / 64], idx % 64);
        assert bits[..] == before[idx / 64 := OrWord(before[idx / 64], idx % 64)];
        i := i + 1;
      }
      assert Positions(p, v, i) == Positions(p, v, p.k);
      numItems := numItems + 1;
    }

    method Contains(host: bytes) returns (hit: bool)
      requires Valid() && (Normalize.Normalize(host) != [] ==> Usable(p))
      ensures hit <==> Normalize.Normalize(host) != [] && Positions(p, Normalize.Normalize(host), p.k) <= Bits()
    {
      var v := Normalize.Normalize(host);
      if v == [] {
        return false;
      }
      var i := 0;
      while i < p.k
        invariant 0 <= i && (i <= p.k || i == 0)
        invariant Positions(p, v, i) <= Bits()
      {
        var idx := Idx(p, v, i);
        PositionsStep(p, v, i);
        if !TestBit(bits[idx / 64], idx % 64) {
          assert idx in Positions(p, v, p.k);
          return false;
        }
        assert IsSet(bits[..], idx);
        i := i + 1;
      }
      assert Positions(p, v, i) == Positions(p, v, p.k);
      return true;
    }

    /** Reads to the end, in whatever pieces the reader hands over, then adds line by line;
        a read error leaves the set as it was. */
    method LoadDomains(r: Pipe) returns (err: Option<ReadError>)
      requires Valid() && r.Valid()
      requires Usable(p) || r.final != Eof || Entries(Lines(r.Remaining())) == []
      modifies this, bits, r
      ensures Valid() && r.Valid()
      ensures err == if r.final == Eof then None else Some(r.final)
      ensures err.Some? ==> Bits() == old(Bits()) && numItems == old(numItems)
      ensures var entries := Entries(Lines(old(r.Remaining())));
              err.None? ==> Bits() == BitsAfter(p, old(Bits()), entries) && numItems == old(numItems) + |entries|
    {
      var buf: bytes;
      buf, err := ReadAll(r);
      if err.Some? {
        return;
      }
      AddLines(Lines(buf));
    }

    /** The loop over the lines. */
    method AddLines(lines: seq<bytes>)
      requires Valid() && (Usable(p) || Entries(lines) == [])
      modifies this, bits
      ensures Bits() == BitsAfter(p, old(Bits()), Entries(lines))
      ensures numItems == old(numItems) + |Entries(lines)|
    {
      ghost var start, kept := Bits(), [];
      var i := 0;
      while i < |lines|
        invariant 0 <= i <= |lines| && kept == EntriesUpTo(lines, i)
        invariant (Usable(p) || kept == []) && Bits() == BitsAfter(p, start, kept)
        invariant numItems == old(numItems) + |kept|
      {
        OneMoreEntry(lines, i);
        kept := AddLine(lines[i], start, kept);
        i := i + 1;
      }
      AllEntries(lines);
    }

    /** The body of that loop. */
    method AddLine(line: bytes, ghost start: set<nat>, ghost kept: seq<bytes>) returns (ghost kept': seq<bytes>)
      requires Valid() && (Usable(p) || kept == []) && (Keeps(Entry(line)) ==> Usable(p))
      requires Bits() == BitsAfter(p, start, kept)
      modifies this, bits
      ensures kept' == OneEntry(kept, line) && (Usable(p) || kept' == [])
      ensures Bits() == BitsAfter(p, start, kept')
      ensures numItems == old(numItems) + |kept'| - |kept|
    {
      kept' := OneEntry(kept, line);
      var v := Entry(line);
      if v != [] && v[0] != HASH {
        BitsAfterOneMore(p, start, kept, v);
        Add(v);
      }
    }
  }

  /** The reading loop of `LoadDomains`. */
  method ReadAll(r: Pipe) returns (buf: bytes, err: Option<ReadError>)
    requires r.Valid()
    modifies r
    ensures r.Valid()
    ensures err == if r.final == Eof then None else Some(r.final)
    ensures buf == old(r.Remaining())
  {
    buf := [];
    var tmp := new byte[4096](_ => 0);
    var readErr: Option<ReadError> := None;
    while readErr.None?
      invariant r.Valid() && buf + r.Remaining() == old(r.Remaining())
      invariant readErr.Some? ==> r.Remaining() == [] && readErr.value == r.final
      decreases readErr.None?, |r.Remaining()| + |r.queue|
    {
      var chunk;
      chunk, readErr := ReadChunk(r, tmp);
      Regroup(buf, chunk, r.Remaining());
      if |chunk| > 0 {
        buf := buf + chunk;
      }
    }
    err := if readErr.value == Eof then None else Some(readErr.value);
  }

  // ---- Over any number of loads ----

  /** A bit is set after adding entries exactly when it was before or one of them hashes to it. */
  lemma {:induction false} BitsComeFromEntries(p: Params, bits: set<nat>, entries: seq<bytes>, j: nat)
    requires Usable(p)
    ensures j in BitsAfter(p, bits, entries) <==>
            j in bits || exists v :: v in entries && j in Positions(p, v, p.k)
  {
    if entries != [] {
      var n := |entries| - 1;
      BitsComeFromEntries(p, bits, entries[..n], j);
      assert forall v :: v in entries <==> v in entries[..n] || v == entries[n];
    }
  }

  /** Every line with a non-empty normal form is an entry. */
  lemma EntriesAreNormalForms(lines: seq<bytes>, line: bytes)
    requires line in lines && Entry(line) != []
    ensures Entry(line) in Entries(lines)
  {
    var i :| 0 <= i < |lines| && lines[i] == line;
    assert NormalForms(lines)[i] == Entry(line);
    KeepsExactlyNonEmptyEntries(line);
    KeptExactly(NormalForms(lines), Entry(line));
  }

  lemma EntriesExactly(lines: seq<bytes>, v: bytes)
    ensures v in Entries(lines) <==> v != [] && exists line :: line in lines && Entry(line) == v
  {
    var vs := NormalForms(lines);
    KeptExactly(vs, v);
    if v in vs {
      var i :| 0 <= i < |vs| && vs[i] == v;
      assert lines[i] in lines && Entry(lines[i]) == v;
      KeepsExactlyNonEmptyEntries(lines[i]);
    }
    if v != [] && exists line :: line in lines && Entry(line) == v {
      var line :| line in lines && Entry(line) == v;
      EntriesAreNormalForms(lines, line);
    }
  }

  lemma {:induction false} KeptAreCounted(vs: seq<bytes>)
    ensures |Kept(vs)| == |set i | 0 <= i < |vs| && Keeps(vs[i])|
  {
    if vs != [] {
      var n := |vs| - 1;
      KeptAreCounted(vs[..n]);
      var fewer := set i | 0 <= i < |vs[..n]| && Keeps(vs[..n][i]);
      var all := set i | 0 <= i < |vs| && Keeps(vs[i]);
      assert all == if Keeps(vs[n]) then fewer + {n} else fewer;
    }
  }

  /** A load counts the lines that have a normal form, each as often as it comes. */
  lemma EntriesAreCounted(lines: seq<bytes>)
    ensures |Entries(lines)| == |set i | 0 <= i < |lines| && Entry(lines[i]) != []|
  {
    var vs := NormalForms(lines);
    KeptAreCounted(vs);
    forall i | 0 <= i < |lines| ensures Keeps(vs[i]) <==> Entry(lines[i]) != [] {
      KeepsExactlyNonEmptyEntries(lines[i]);
    }
    assert (set i | 0 <= i < |vs| && Keeps(vs[i])) == (set i | 0 <= i < |lines| && Entry(lines[i]) != []);
  }

  /** The bits after loading several texts, each given as its lines. */
  ghost function BitsAfterLoads(p: Params, bits: set<nat>, loads: seq<seq<bytes>>): set<nat>
    requires Usable(p)
  {
    if loads == [] then bits
    else BitsAfter(p, BitsAfterLoads(p, bits, loads[..|loads| - 1]), Entries(loads[|loads| - 1]))
  }

  lemma {:induction false} LaterLoadsOnlyAdd(p: Params, bits: set<nat>, loads: seq<seq<bytes>>, n: nat)
    requires Usable(p) && n <= |loads|
    ensures BitsAfterLoads(p, bits, loads[..n]) <= BitsAfterLoads(p, bits, loads)
  {
    if n == |loads| {
      assert loads[..n] == loads;
    } else {
      var fewer := loads[..|loads| - 1];
      LaterLoadsOnlyAdd(p, bits, fewer, n);
      assert fewer[..n] == loads[..n];
      forall j | j in BitsAfterLoads(p, bits, fewer) ensures j in BitsAfterLoads(p, bits, loads) {
        BitsComeFromEntries(p, BitsAfterLoads(p, bits, fewer), Entries(loads[|loads| - 1]), j);
      }
    }
  }

  lemma EntryStaysSet(p: Params, bits: set<nat>, loads: seq<seq<bytes>>, t: nat, v: bytes)
    requires Usable(p) && t < |loads| && v in Entries(loads[t])
    ensures Positions(p, v, p.k) <= BitsAfterLoads(p, bits, loads)
  {
    var before := BitsAfterLoads(p, bits, loads[..t]);
    assert loads[..t + 1][..t] == loads[..t];
    LaterLoadsOnlyAdd(p, bits, loads, t + 1);
    forall j | j in Positions(p, v, p.k) ensures j in BitsAfterLoads(p, bits, loads) {
      BitsComeFromEntries(p, before, Entries(loads[t]), j);
    }
  }

  /** The test `Contains` makes, on a set of bits. */
  ghost predicate Blocked(p: Params, bits: set<nat>, host: bytes)
    requires Usable(p)
  {
    Normalize.Normalize(host) != [] && Positions(p, Normalize.Normalize(host), p.k) <= bits
  }

  ghost predicate InSomeLoad(loads: seq<seq<bytes>>, e: bytes)
  {
    exists t: nat :: t < |loads| && e in Entries(loads[t])
  }

  /** What has been loaded are the normal forms of the lines, but for the empty one. */
  lemma LoadedExactly(loads: seq<seq<bytes>>, e: bytes)
    ensures InSomeLoad(loads, e) <==>
            e != [] && exists t: nat, line ::
              t < |loads| && line in loads[t] && Normalize.Normalize(TrimSpace(line)) == e
  {
    forall t: nat | t < |loads|
      ensures e in Entries(loads[t]) <==> e != [] && exists line :: line in loads[t] && Entry(line) == e
    {
      EntriesExactly(loads[t], e);
    }
  }

  /** The i-th hash of an entry is b: FNV-1a of the hash number, as a byte, and the entry, in uint64, reduced
      to m. */
  predicate HashesTo(p: Params, e: bytes, i: nat, b: int)
    requires Usable(p)
  {
    i < p.k && p.fnv([i % 256] + e) % 0x1_0000_0000_0000_0000 % p.m == b
  }

  lemma PositionsAreTheHashes(p: Params, e: bytes, b: nat)
    requires Usable(p)
    ensures b in Positions(p, e, p.k) <==> exists i: nat :: HashesTo(p, e, i, b)
  {
    if b in Positions(p, e, p.k) {
      var i: nat :| i < p.k && b == Idx(p, e, i);
      assert HashesTo(p, e, i, b);
    }
    if exists i: nat :: HashesTo(p, e, i, b) {
      var i: nat :| HashesTo(p, e, i, b);
      assert Idx(p, e, i) == b;
    }
  }

  /** Something loaded hashes to bit b. */
  ghost predicate LoadedBit(p: Params, loads: seq<seq<bytes>>, b: int)
    requires Usable(p)
  {
    exists e, i: nat :: InSomeLoad(loads, e) && HashesTo(p, e, i, b)
  }

  lemma EntryBitIsLoaded(p: Params, loads: seq<seq<bytes>>, e: bytes, b: nat)
    requires Usable(p) && InSomeLoad(loads, e) && b in Positions(p, e, p.k)
    ensures LoadedBit(p, loads, b)
  {
    PositionsAreTheHashes(p, e, b);
  }

  lemma LoadedBitIsSet(p: Params, loads: seq<seq<bytes>>, b: nat)
    requires Usable(p) && LoadedBit(p, loads, b)
    ensures b in BitsAfterLoads(p, {}, loads)
  {
    var e, i: nat :| InSomeLoad(loads, e) && HashesTo(p, e, i, b);
    PositionsAreTheHashes(p, e, b);
    var t: nat :| t < |loads| && e in Entries(loads[t]);
    EntryStaysSet(p, {}, loads, t, e);
  }

  lemma {:induction false} SetBitHasALoad(p: Params, loads: seq<seq<bytes>>, b: nat) returns (t: nat, e: bytes)
    requires Usable(p) && b in BitsAfterLoads(p, {}, loads)
    ensures t < |loads| && e in Entries(loads[t]) && b in Positions(p, e, p.k)
  {
    var n := |loads| - 1;
    var before, entries := BitsAfterLoads(p, {}, loads[..n]), Entries(loads[n]);
    BitsComeFromEntries(p, before, entries, b);
    if b in before {
      t, e := SetBitHasALoad(p, loads[..n], b);
    } else {
      t := n;
      e :| e in entries && b in Positions(p, e, p.k);
    }
  }

  lemma SetBitIsLoaded(p: Params, loads: seq<seq<bytes>>, b: nat)
    requires Usable(p) && b in BitsAfterLoads(p, {}, loads)
    ensures LoadedBit(p, loads, b)
  {
    var t, e := SetBitHasALoad(p, loads, b);
    EntryBitIsLoaded(p, loads, e, b);
  }

  lemma BitsAreLoaded(p: Params, loads: seq<seq<bytes>>, b: nat)
    requires Usable(p)
    ensures b in BitsAfterLoads(p, {}, loads) <==> LoadedBit(p, loads, b)
  {
    if b in BitsAfterLoads(p, {}, loads) {
      SetBitIsLoaded(p, loads, b);
    }
    if LoadedBit(p, loads, b) {
      LoadedBitIsSet(p, loads, b);
    }
  }

  lemma AllPositionsExactly(p: Params, loads: seq<seq<bytes>>, v: bytes)
    requires Usable(p)
    ensures Positions(p, v, p.k) <= BitsAfterLoads(p, {}, loads) <==>
            forall i: nat, b: nat | HashesTo(p, v, i, b) :: LoadedBit(p, loads, b)
  {
    forall b: nat
      ensures b in BitsAfterLoads(p, {}, loads) <==> LoadedBit(p, loads, b)
      ensures b in Positions(p, v, p.k) <==> exists i: nat :: HashesTo(p, v, i, b)
    {
      BitsAreLoaded(p, loads, b);
      PositionsAreTheHashes(p, v, b);
    }
  }

  /** After any loads into an empty set: a host is blocked if and only if it has a normal form and every bit
      it hashes to is one that something loaded hashes to. A host that misses one is not blocked. */
  lemma BlockedExactly(p: Params, loads: seq<seq<bytes>>, host: bytes)
    requires Usable(p)
    ensures var v := Normalize.Normalize(host);
            Blocked(p, BitsAfterLoads(p, {}, loads), host) <==>
            v != [] && forall i: nat, b: nat | HashesTo(p, v, i, b) :: LoadedBit(p, loads, b)
  {
    AllPositionsExactly(p, loads, Normalize.Normalize(host));
  }

  /** Say of some hash of a host that it is none of anything loaded: the host is not blocked. */
  lemma OneMissIsEnough(p: Params, loads: seq<seq<bytes>>, host: bytes, i: nat)
    requires Usable(p) && i < p.k
    requires forall e, k: nat | InSomeLoad(loads, e) && k < p.k ::
               p.fnv([k % 256] + e) % TWO_64 % p.m != p.fnv([i % 256] + Normalize.Normalize(host)) % TWO_64 % p.m
    ensures !Blocked(p, BitsAfterLoads(p, {}, loads), host)
  {
    var v := Normalize.Normalize(host);
    var b := p.fnv([i % 256] + v) % TWO_64 % p.m;
    BlockedExactly(p, loads, host);
    assert HashesTo(p, v, i, b);
  }

  /** No false negatives, ever: a host with the normal form of any line of any text loaded so far is blocked. */
  lemma NeverForgets(p: Params, bits: set<nat>, loads: seq<seq<bytes>>, t: nat, line: bytes, host: bytes)
    requires Usable(p) && t < |loads| && line in loads[t]
    requires Normalize.Normalize(host) == Entry(line) != []
    ensures Blocked(p, BitsAfterLoads(p, bits, loads), host)
  {
    EntriesAreNormalForms(loads[t], line);
    EntryStaysSet(p, bits, loads, t, Entry(line));
  }

  /** Once a line is loaded that is a host, bare or under a scheme, in any case, with any dot, port,
      path, query or fragment, every URL and every bare form of that host is blocked. */
  lemma UrlsOfLoadedHostsAreBlocked(p: Params, bits: set<nat>, loads: seq<seq<bytes>>, t: nat, line: bytes,
                                    h: bytes, url: bytes)
    requires Usable(p) && t < |loads| && line in loads[t] && Host(h)
    requires Decorated(Body(TrimSpace(line)), h) && Decorated(Body(url), h)
    ensures Blocked(p, BitsAfterLoads(p, bits, loads), url)
  {
    NormalisesToHostExactly(TrimSpace(line), h);
    NormalisesToHostExactly(url, h);
    NeverForgets(p, bits, loads, t, line, url);
  }
}
