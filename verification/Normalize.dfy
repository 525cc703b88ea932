/**
 * Reducing a host, host:port or URL to a bare lower-case host, on ASCII text.
 * Bytes above 127 are left as they are.
 */
module Normalize {
  import opened Bytes

  const DOT: byte := 46
  const SLASH: byte := 47
  const COLON: byte := 58
  const HASH: byte := 35
  const QUESTION: byte := 63
  const SCHEME_MARK: bytes := [COLON, SLASH, SLASH]

  const PATH_STOPS: set<byte> := {SLASH, QUESTION, HASH}
  const STOPS: set<byte> := {SLASH, QUESTION, HASH, COLON}

  predicate IsUpper(b: byte)
  {
    65 <= b <= 90
  }

  function Lower(s: bytes): (t: bytes)
    ensures |t| == |s|
    ensures forall i | 0 <= i < |s| :: t[i] == if IsUpper(s[i]) then s[i] + 32 else s[i]
  {
    seq(|s|, i requires 0 <= i < |s| => if IsUpper(s[i]) then s[i] + 32 else s[i])
  }

  /** `TrimSuffix(s, ".")`: one dot at most. */
  function TrimDot(s: bytes): bytes
  {
    if |s| > 0 && s[|s| - 1] == DOT then s[..|s| - 1] else s
  }

  predicate MarkAt(s: bytes, i: nat)
  {
    i + 3 <= |s| && s[i] == COLON && s[i + 1] == SLASH && s[i + 2] == SLASH
  }

  function IndexMarkFrom(s: bytes, i: nat): (r: int)
    ensures r >= 0 ==> i <= r && MarkAt(s, r) && forall j | i <= j < r :: !MarkAt(s, j)
    ensures r < 0 ==> r == -1 && forall j | i <= j :: !MarkAt(s, j)
    decreases |s| - i
  {
    if i + 3 > |s| then -1
    else if MarkAt(s, i) then i
    else IndexMarkFrom(s, i + 1)
  }

  /** `Index(s, "://")`: the first occurrence, or -1. */
  function IndexMark(s: bytes): (r: int)
    ensures r >= 0 ==> MarkAt(s, r) && forall j | 0 <= j < r :: !MarkAt(s, j)
    ensures r < 0 ==> r == -1 && forall j: nat :: !MarkAt(s, j)
  {
    IndexMarkFrom(s, 0)
  }

  function AfterScheme(s: bytes): bytes
  {
    var i := IndexMark(s);
    if i >= 0 then s[i + 3..] else s
  }

  /** Everything before the first byte in `stops`. */
  function Before(s: bytes, stops: set<byte>): (t: bytes)
    ensures t <= s && forall i | 0 <= i < |t| :: t[i] !in stops
    ensures |t| < |s| ==> s[|t|] in stops
  {
    if s == [] || s[0] in stops then [] else [s[0]] + Before(s[1..], stops)
  }

  /** The host part: up to the path, then up to the port. */
  function HostPart(s: bytes): bytes
  {
    Before(Before(s, PATH_STOPS), {COLON})
  }

  function Normalize(s: bytes): bytes
  {
    HostPart(AfterScheme(TrimDot(Lower(s))))
  }

  predicate Clean(s: bytes)
  {
    forall i | 0 <= i < |s| :: s[i] !in STOPS && !IsUpper(s[i])
  }

  /** The part before the first stop is the only prefix without stops that a stop, or the end, follows. */
  lemma {:induction false} BeforeExactly(s: bytes, h: bytes, stops: set<byte>)
    requires h <= s && forall i | 0 <= i < |h| :: h[i] !in stops
    requires |h| < |s| ==> s[|h|] in stops
    ensures Before(s, stops) == h
  {
    if h != [] {
      assert s[0] == h[0];
      BeforeExactly(s[1..], h[1..], stops);
    }
  }

  lemma BeforeIsTheSplit(h: bytes, tail: bytes, stops: set<byte>)
    requires forall i | 0 <= i < |h| :: h[i] !in stops
    requires tail == [] || tail[0] in stops
    ensures Before(h + tail, stops) == h
  {
    BeforeExactly(h + tail, h, stops);
  }

  /** The two cuts are one cut at the first of "/?#:". */
  lemma HostPartIsBeforeStop(x: bytes)
    ensures HostPart(x) == Before(x, STOPS)
  {
    var d := Before(x, PATH_STOPS);
    var h := Before(d, {COLON});
    assert forall i | 0 <= i < |h| :: h[i] == d[i] && h[i] !in STOPS;
    assert |h| < |x| ==> x[|h|] in STOPS;
    BeforeExactly(x, h, STOPS);
  }

  lemma CleanIsUnmarked(s: bytes)
    requires forall i | 0 <= i < |s| :: s[i] != COLON
    ensures IndexMark(s) == -1
  {
  }

  /** The output never holds an upper-case letter or any of "/?#:". */
  lemma OutputIsClean(s: bytes)
    ensures Clean(Normalize(s))
    ensures forall i | 0 <= i < |Normalize(s)| ::
              Normalize(s)[i] !in {35, 47, 58, 63} && !(65 <= Normalize(s)[i] <= 90)
  {
    var low := TrimDot(Lower(s));
    var c := AfterScheme(low);
    assert forall i | 0 <= i < |c| :: !IsUpper(c[i]);
    var d := Before(c, PATH_STOPS);
    var h := Before(d, {COLON});
    assert forall i | 0 <= i < |h| :: h[i] == d[i] == c[i];
  }

  // ---- The normal form, read off the input ----

  /** The lower-case text behind the first "://", or all of it. */
  function Body(s: bytes): bytes
  {
    AfterScheme(Lower(s))
  }

  /** A trailing dot is never part of the mark, so it can be taken off before or after the cut. */
  lemma AfterSchemeTrims(x: bytes)
    ensures AfterScheme(TrimDot(x)) == TrimDot(AfterScheme(x))
  {
    if x != [] && x[|x| - 1] == DOT {
      var t := x[..|x| - 1];
      assert forall j: nat :: MarkAt(t, j) <==> MarkAt(x, j);
      SameMarks(t, x);
      var i := IndexMark(x);
      if i >= 0 {
        assert MarkAt(t, i);
        assert t[i + 3..] == x[i + 3..][..|x| - i - 4];
      }
    }
  }

  lemma SameMarks(s: bytes, t: bytes)
    requires forall j: nat :: MarkAt(s, j) <==> MarkAt(t, j)
    ensures IndexMark(s) == IndexMark(t)
  {
  }

  /** The body up to its first stop, or the whole body less a trailing dot. */
  function Cut(u: bytes): bytes
  {
    var h := Before(u, STOPS);
    if |h| < |u| then h else TrimDot(u)
  }

  lemma CutIsHostPart(u: bytes)
    ensures HostPart(TrimDot(u)) == Cut(u)
  {
    var h, t := Before(u, STOPS), TrimDot(u);
    HostPartIsBeforeStop(t);
    if |h| < |u| {
      assert |h| < |t| && t[|h|] == u[|h|];
      BeforeExactly(t, h, STOPS);
    } else {
      BeforeExactly(t, t, STOPS);
    }
  }

  /** Normalising is one cut of the body. */
  lemma NormalForm(s: bytes)
    ensures Normalize(s) == Cut(Body(s))
  {
    AfterSchemeTrims(Lower(s));
    CutIsHostPart(Body(s));
  }

  lemma LowerIsIdentity(s: bytes)
    requires forall i | 0 <= i < |s| :: !IsUpper(s[i])
    ensures Lower(s) == s
  {
  }

  lemma CleanNormalises(s: bytes)
    requires Clean(s)
    ensures Normalize(s) == TrimDot(s)
  {
    LowerIsIdentity(s);
    CleanIsUnmarked(s);
    NormalForm(s);
    BeforeExactly(s, s, STOPS);
  }

  /** Normalising twice takes off one more trailing dot, and does nothing else. */
  lemma TwiceTrimsOneMoreDot(s: bytes)
    ensures Normalize(Normalize(s)) == TrimDot(Normalize(s))
  {
    OutputIsClean(s);
    CleanNormalises(Normalize(s));
  }

  predicate CaseVariant(s: bytes, t: bytes)
  {
    |s| == |t| && forall i | 0 <= i < |s| :: s[i] == t[i] || (97 <= t[i] <= 122 && s[i] == t[i] - 32)
  }

  lemma LowerIgnoresCase(s: bytes, t: bytes)
    requires CaseVariant(s, t)
    ensures Lower(s) == Lower(t)
  {
  }

  /** Texts that differ in ASCII case only have one normal form. */
  lemma CaseIsIgnored(s: bytes, t: bytes)
    requires CaseVariant(s, t)
    ensures Normalize(s) == Normalize(t)
  {
    LowerIgnoresCase(s, t);
  }

  /** The host in front of the first stop ends in a dot; or, if there is no stop, the body ends in two. */
  predicate LeavesDot(u: bytes)
  {
    var k := |Before(u, STOPS)|;
    if k < |u| then k > 0 && u[k - 1] == DOT
    else k > 1 && u[k - 1] == DOT && u[k - 2] == DOT
  }

  predicate EndsInDot(s: bytes)
  {
    s != [] && s[|s| - 1] == DOT
  }

  lemma CutEndsInDotExactly(u: bytes)
    ensures EndsInDot(Cut(u)) <==> LeavesDot(u)
  {
  }

  /** Normalising is idempotent exactly on the inputs whose body leaves no dot behind. */
  lemma IdempotentExactly(s: bytes)
    ensures Normalize(Normalize(s)) == Normalize(s) <==> !LeavesDot(Body(s))
  {
    NormalForm(s);
    TwiceTrimsOneMoreDot(s);
    CutEndsInDotExactly(Body(s));
  }

  predicate Host(h: bytes)
  {
    h != [] && Clean(h) && h[|h| - 1] != DOT
  }

  /** What may follow a host: nothing, one dot, or a port, path, query or fragment. */
  predicate Decoration(tail: bytes)
  {
    tail == [] || tail == [DOT] || tail[0] in STOPS
  }

  predicate Decorated(u: bytes, h: bytes)
  {
    h <= u && Decoration(u[|h|..])
  }

  lemma CutIsHostExactly(u: bytes, h: bytes)
    requires Host(h)
    ensures Cut(u) == h <==> Decorated(u, h)
  {
    var k := Before(u, STOPS);
    if Cut(u) == h && |k| == |u| && u != h {
      assert u == h + [DOT];
    }
    if Decorated(u, h) {
      DecoratedHasForm(u, h);
    }
  }

  lemma DecoratedHasForm(u: bytes, h: bytes)
    requires Host(h) && Decorated(u, h)
    ensures Cut(u) == h
  {
    var t := u[|h|..];
    assert u == h + t;
    if t == [DOT] {
      BeforeExactly(u, u, STOPS);
      assert u[..|u| - 1] == h;
    } else {
      BeforeIsTheSplit(h, t, STOPS);
    }
  }

  /** For every input and every host: the input normalises to the host if and only if its body
      is the host, decorated or not. */
  lemma NormalisesToHostExactly(s: bytes, h: bytes)
    requires Host(h)
    ensures Normalize(s) == h <==> Decorated(Body(s), h)
  {
    NormalForm(s);
    CutIsHostExactly(Body(s), h);
  }

  // ---- Consequences for texts of a given shape ----

  /** The first "://" of the text is the one behind `front`. */
  predicate FirstMarkBehind(front: bytes)
  {
    IndexMark(front + SCHEME_MARK) == |front|
  }

  lemma MarkBehind(front: bytes, rest: bytes)
    requires FirstMarkBehind(front)
    ensures AfterScheme(front + SCHEME_MARK + rest) == rest
  {
    var s, head := front + SCHEME_MARK + rest, front + SCHEME_MARK;
    assert MarkAt(s, |front|);
    assert forall j: nat | j < |front| :: MarkAt(s, j) <==> MarkAt(head, j);
    assert s[|front| + 3..] == rest;
  }

  lemma NoColonNoMark(scheme: bytes)
    requires forall i | 0 <= i < |scheme| :: scheme[i] != COLON
    ensures FirstMarkBehind(scheme)
  {
    var s := scheme + SCHEME_MARK;
    assert MarkAt(s, |scheme|);
    assert forall j | 0 <= j < |scheme| :: s[j] == scheme[j];
  }

  /** Whatever stands before the first "://", the host is read from behind it. */
  lemma HostIsBehindTheFirstMark(s: bytes, front: bytes, u: bytes, h: bytes)
    requires Host(h) && FirstMarkBehind(front) && Lower(s) == front + SCHEME_MARK + u
    ensures Normalize(s) == h <==> Decorated(u, h)
  {
    MarkBehind(front, u);
    NormalisesToHostExactly(s, h);
  }

  /** Any case variant of scheme://host[.|:port|/path|?query|#fragment] is the host. */
  lemma UrlIsItsHost(s: bytes, scheme: bytes, h: bytes, tail: bytes)
    requires Host(h) && Decoration(tail) && forall i | 0 <= i < |scheme| :: scheme[i] != COLON
    requires Lower(s) == scheme + SCHEME_MARK + h + tail
    ensures Normalize(s) == h
  {
    NoColonNoMark(scheme);
    assert scheme + SCHEME_MARK + h + tail == scheme + SCHEME_MARK + (h + tail);
    assert (h + tail)[|h|..] == tail;
    HostIsBehindTheFirstMark(s, scheme, h + tail, h);
  }

  /** Without a scheme the same holds exactly when no "://" follows, or when the same host,
      decorated or not, stands behind the first one. */
  lemma BareHostExactly(s: bytes, h: bytes, tail: bytes)
    requires Host(h) && Decoration(tail) && Lower(s) == h + tail
    ensures var i := IndexMark(h + tail);
            Normalize(s) == h <==> i < 0 || Decorated((h + tail)[i + 3..], h)
  {
    assert (h + tail)[|h|..] == tail;
    NormalisesToHostExactly(s, h);
  }

  lemma DotBeforeStopIsKept(h: bytes, tail: bytes)
    requires Host(h) && tail != [] && tail[0] in STOPS
    ensures Cut(h + [DOT] + tail) == h + [DOT] && TrimDot(h + [DOT]) == h
  {
    BeforeIsTheSplit(h + [DOT], tail, STOPS);
    assert (h + [DOT])[..|h|] == h;
  }

  /** A dot between the host and its port, path, query or fragment survives the first pass only. */
  lemma DottedHostNeedsTwoPasses(s: bytes, scheme: bytes, h: bytes, tail: bytes)
    requires Host(h) && tail != [] && tail[0] in STOPS && forall i | 0 <= i < |scheme| :: scheme[i] != COLON
    requires Lower(s) == scheme + SCHEME_MARK + (h + [DOT] + tail)
    ensures Normalize(s) == h + [DOT] && Normalize(Normalize(s)) == h
  {
    NoColonNoMark(scheme);
    MarkBehind(scheme, h + [DOT] + tail);
    NormalForm(s);
    DotBeforeStopIsKept(h, tail);
    TwiceTrimsOneMoreDot(s);
  }

  /** "x://f./" normalises to "f.", and that to "f". */
  lemma NotIdempotent(s: bytes)
    requires s == [120, 58, 47, 47, 102, 46, 47]
    ensures Normalize(s) == [102, 46] && Normalize(Normalize(s)) == [102]
  {
    LowerIsIdentity(s);
    assert s == [120] + SCHEME_MARK + ([102] + [DOT] + [SLASH]);
    DottedHostNeedsTwoPasses(s, [120], [102], [SLASH]);
  }

  /** "a/b://c" normalises to "c", not to the host it begins with. */
  lemma BareHostCanBeLost()
    ensures Normalize([97, 47, 98, 58, 47, 47, 99]) == [99]
  {
    var s: bytes := [97, 47, 98, 58, 47, 47, 99];
    assert s == [97, 47, 98] + SCHEME_MARK + [99] + [];
    LowerIsIdentity(s);
    UrlIsItsHost(s, [97, 47, 98], [99], []);
  }

  // ---- Lines that begin with '#' ----

  lemma LowerKeepsMarks(s: bytes)
    ensures IndexMark(Lower(s)) == IndexMark(s)
  {
    SameMarks(Lower(s), s);
  }

  /** A normal form is empty exactly when the body is empty, a lone dot, or opens with a stop. */
  lemma EmptyExactly(s: bytes)
    ensures Normalize(s) == [] <==> var u := Body(s); u == [] || u == [DOT] || u[0] in STOPS
  {
    NormalForm(s);
  }

  lemma LowerOfTail(s: bytes, k: nat)
    requires k <= |s|
    ensures Lower(s)[k..] == Lower(s[k..])
  {
  }

  /** Lower case changes no stop, no dot and no length. */
  lemma OpensAlike(s: bytes)
    ensures Lower(s) == [] <==> s == []
    ensures Lower(s) == [DOT] <==> s == [DOT]
    ensures s != [] ==> (Lower(s)[0] in STOPS <==> s[0] in STOPS)
  {
    if |s| == 1 {
      assert Lower(s) == [Lower(s)[0]] && s == [s[0]];
    }
  }

  /** A text that begins with '#' has a normal form exactly when it holds "://" and what follows
      the first one is more than a dot and does not open with a stop. */
  lemma CommentExactly(s: bytes)
    requires s != [] && s[0] == HASH
    ensures var i := IndexMark(s);
            Normalize(s) != [] <==>
            i >= 0 && var rest := s[i + 3..]; rest != [] && rest != [DOT] && rest[0] !in STOPS
  {
    LowerKeepsMarks(s);
    EmptyExactly(s);
    var i := IndexMark(s);
    if i >= 0 {
      LowerOfTail(s, i + 3);
      OpensAlike(s[i + 3..]);
    } else {
      OpensAlike(s);
    }
  }
}
