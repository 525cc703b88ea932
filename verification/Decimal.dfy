/** Port numbers as decimal text: `itoa` of the prober and `parsePort` of the tunnel client. */
module Decimal {
  import opened Wrappers
  import opened Bytes

  const ZERO: byte := 48

  predicate IsDigit(c: byte)
  {
    48 <= c <= 57
  }

  predicate AllDigits(s: bytes)
  {
    forall i | 0 <= i < |s| :: IsDigit(s[i])
  }

  /** The number a digit string denotes. */
  function Value(s: bytes): nat
    requires AllDigits(s)
  {
    if s == [] then 0 else Value(s[..|s| - 1]) * 10 + (s[|s| - 1] - ZERO)
  }

  function Pow10(n: nat): (p: nat)
    ensures p > 0
  {
    if n == 0 then 1 else 10 * Pow10(n - 1)
  }

  lemma TenTimes(x: nat, p: nat)
    ensures x * (10 * p) == 10 * (x * p)
  {
  }

  lemma {:induction false} ValuePrepend(d: byte, s: bytes)
    requires IsDigit(d) && AllDigits(s)
    ensures AllDigits([d] + s) && Value([d] + s) == (d - ZERO) * Pow10(|s|) + Value(s)
  {
    if s == [] {
      assert [d] + s == [d] && Value([]) == 0;
    } else {
      var n := |s| - 1;
      ValuePrepend(d, s[..n]);
      assert ([d] + s)[..|s|] == [d] + s[..n];
      assert Value([d] + s) == Value([d] + s[..n]) * 10 + (s[n] - ZERO);
      TenTimes(d - ZERO, Pow10(n));
    }
  }

  /** Decimal without needless zeros. */
  predicate Canonical(s: bytes)
  {
    s != [] && AllDigits(s) && (|s| > 1 ==> s[0] != ZERO)
  }

  lemma {:induction false} CanonicalValueIsPositive(s: bytes)
    requires Canonical(s) && |s| > 1
    ensures Value(s) >= 10
  {
    var t := s[..|s| - 1];
    if |t| > 1 {
      CanonicalValueIsPositive(t);
    } else {
      assert t[..0] == [] && Value(t) == t[0] - ZERO;
    }
  }

  /** A number has one canonical text. */
  lemma {:induction false} CanonicalIsUnique(s: bytes, t: bytes)
    requires Canonical(s) && Canonical(t) && Value(s) == Value(t)
    ensures s == t
  {
    var a, b := s[..|s| - 1], t[..|t| - 1];
    assert Value(s) == Value(a) * 10 + (s[|s| - 1] - ZERO) && Value(t) == Value(b) * 10 + (t[|t| - 1] - ZERO);
    assert Value(a) == Value(b) && s[|s| - 1] == t[|t| - 1];
    if |s| > 1 {
      CanonicalValueIsPositive(s);
    }
    if |t| > 1 {
      CanonicalValueIsPositive(t);
    }
    if |s| > 1 && |t| > 1 {
      CanonicalIsUnique(a, b);
      assert s == a + [s[|s| - 1]] && t == b + [t[|t| - 1]];
    }
  }

  /** `value` split into the part still to be written and the digits written so far. */
  predicate Split(value: int, i: int, room: nat, tail: bytes)
  {
    AllDigits(tail) && 0 <= i < Pow10(room) && value == i * Pow10(|tail|) + Value(tail)
  }

  lemma Carry(i: nat, p: nat)
    ensures i * p == i / 10 * (10 * p) + i % 10 * p
  {
    var q, d := i / 10, i % 10;
    assert i == q * 10 + d;
    assert (q * 10 + d) * p == q * 10 * p + d * p;
    TenTimes(q, p);
    assert q * 10 * p == 10 * (q * p);
  }

  lemma SplitNext(value: int, i: int, room: nat, tail: bytes)
    requires Split(value, i, room, tail) && i > 0
    ensures room > 0 && Split(value, i / 10, room - 1, [ZERO + i % 10] + tail)
  {
    ValuePrepend(ZERO + i % 10, tail);
    Carry(i, Pow10(|tail|));
  }

  /** Fills a 10-byte buffer from the back. From 10^10 on the digits do not fit (`OverlongExactly`),
      and the source indexes below its buffer. */
  method Itoa(value: int) returns (s: bytes)
    requires value < 10_000_000_000
    ensures value < 0 ==> s == []
    ensures value >= 0 ==> Canonical(s) && Value(s) == value
  {
    if value == 0 {
      assert Value([ZERO]) == 0 by { ValueAppend([], ZERO); }
      return [ZERO];
    }
    var buf := new byte[10](_ => 0);
    var n, i := buf.Length, value;
    ghost var tail: bytes := [];
    TenDigits();
    while i > 0
      invariant 0 <= n <= 10 && buf[n..] == tail
      invariant value < 0 ==> i == value && n == 10
      invariant value > 0 ==> Split(value, i, n, tail)
      invariant value > 0 && i < value ==> n < 10
      invariant value > 0 && i == 0 ==> n < 10 && tail[0] != ZERO
    {
      SplitNext(value, i, n, tail);
      n := n - 1;
      tail := [ZERO + i % 10] + tail;
      buf[n] := ZERO + i % 10;
      i := i / 10;
    }
    return buf[n..];
  }

  lemma {:induction false} ValueIsBelow(s: bytes)
    requires AllDigits(s)
    ensures Value(s) < Pow10(|s|)
  {
    if s != [] {
      ValueIsBelow(s[..|s| - 1]);
    }
  }

  lemma {:induction false} ValueIsAbove(s: bytes)
    requires AllDigits(s) && s != [] && s[0] != ZERO
    ensures Value(s) >= Pow10(|s| - 1)
  {
    if |s| > 1 {
      ValueIsAbove(s[..|s| - 1]);
    }
  }

  lemma {:induction false} Pow10Grows(a: nat, b: nat)
    requires a <= b
    ensures Pow10(a) <= Pow10(b)
  {
    if a < b {
      Pow10Grows(a, b - 1);
    }
  }

  /** A canonical text is longer than n digits exactly when its number is 10^n or more. */
  lemma DigitCountExactly(s: bytes, n: nat)
    requires Canonical(s) && n > 0
    ensures |s| > n <==> Value(s) >= Pow10(n)
  {
    if |s| > n {
      ValueIsAbove(s);
      Pow10Grows(n, |s| - 1);
    } else {
      ValueIsBelow(s);
      Pow10Grows(|s|, n);
    }
  }

  /** So the texts that do not fit the 10-byte buffer are those of the numbers from 10^10 on. */
  lemma OverlongExactly(s: bytes)
    requires Canonical(s)
    ensures |s| > 10 <==> Value(s) >= 10_000_000_000
  {
    DigitCountExactly(s, 10);
    TenDigits();
  }

  lemma TenDigits()
    ensures Pow10(10) == 10_000_000_000
  {
    assert Pow10(5) == 100_000;
    assert Pow10(10) == 100_000 * Pow10(5);
  }

  lemma ValueAppend(s: bytes, d: byte)
    requires AllDigits(s) && IsDigit(d)
    ensures Value(s + [d]) == Value(s) * 10 + (d - ZERO)
  {
    assert (s + [d])[..|s|] == s;
  }

  lemma WrapStep(v: nat, d: nat)
    ensures (v % 0x1_0000 * 10 + d) % 0x1_0000 == (v * 10 + d) % 0x1_0000
  {
    var q := v / 0x1_0000;
    assert v * 10 + d == (v % 0x1_0000 * 10 + d) + 0x1_0000 * (10 * q);
    WrapMultiple(v % 0x1_0000 * 10 + d, 10 * q);
  }

  lemma {:induction false} WrapMultiple(x: nat, k: nat)
    ensures (x + 0x1_0000 * k) % 0x1_0000 == x % 0x1_0000
  {
    if k > 0 {
      WrapMultiple(x, k - 1);
      assert x + 0x1_0000 * k == x + 0x1_0000 * (k - 1) + 0x1_0000;
    }
  }

  /** What `parsePort` returns: the value modulo 2^16, or nothing if some byte is not a digit. */
  function PortOf(s: bytes): Option<int>
  {
    if AllDigits(s) then Some(Value(s) % 0x1_0000) else None
  }

  /** An error exactly if some byte is not a digit; otherwise the number, reduced to 16 bits. */
  lemma PortErrorExactly(s: bytes)
    ensures PortOf(s).None? <==> exists i :: 0 <= i < |s| && !(48 <= s[i] <= 57)
    ensures PortOf(s).Some? ==> AllDigits(s) && PortOf(s).value == Value(s) % 65536
  {
  }

  method ParsePort(s: bytes) returns (port: Option<int>)
    ensures port == PortOf(s)
  {
    var p := 0;
    for i := 0 to |s|
      invariant AllDigits(s[..i]) && p == Value(s[..i]) % 0x1_0000
    {
      if s[i] < 48 || s[i] > 57 {
        return None;
      }
      assert s[..i + 1] == s[..i] + [s[i]];
      ValueAppend(s[..i], s[i]);
      WrapStep(Value(s[..i]), s[i] - ZERO);
      p := (p * 10 + (s[i] - ZERO)) % 0x1_0000;
    }
    assert s[..|s|] == s;
    return Some(p);
  }

  /** The text `itoa` gives a port parses back to it, no other canonical text of a 16-bit
      number does, and digits parse to their number exactly when it fits in 16 bits. */
  lemma PortTextRoundTrip(s: bytes, t: bytes, port: int)
    requires Canonical(s) && Value(s) == port < 0x1_0000
    ensures PortOf(s) == Some(port)
    ensures Canonical(t) && Value(t) < 0x1_0000 && PortOf(t) == Some(port) ==> t == s
    ensures AllDigits(t) ==> (PortOf(t) == Some(Value(t)) <==> Value(t) < 0x1_0000)
  {
    if Canonical(t) && Value(t) < 0x1_0000 && PortOf(t) == Some(port) {
      CanonicalIsUnique(s, t);
    }
  }

  /** Out-of-range digits are not refused: 65616 is read as port 80. */
  lemma OutOfRangePortsWrap()
    ensures PortOf([54, 53, 54, 49, 54]) == Some(80)
  {
    var a: bytes := [] + [54];
    var b := a + [53];
    var c := b + [54];
    var d := c + [49];
    ValueAppend([], 54);
    ValueAppend(a, 53);
    ValueAppend(b, 54);
    ValueAppend(c, 49);
    ValueAppend(d, 54);
    assert Value(d + [54]) == 65616;
    assert d + [54] == [54, 53, 54, 49, 54];
  }
}
