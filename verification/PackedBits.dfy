/**
 * Bit arrays packed into 64-bit words, as both bloom filters of the repository
 * store them: bit j is bit j&63 of word j>>6.
 *
 * A word is its unsigned value. `TestBit` and `OrBit` are `w & (1<<s) != 0` and
 * `w | 1<<s`, computed from the least significant bit upwards.
 */
module PackedBits {
  function Pow2(n: nat): (p: nat)
    ensures p > 0
  {
    if n == 0 then 1 else 2 * Pow2(n - 1)
  }

  type word = w: nat | w < 0x1_0000_0000_0000_0000

  lemma {:induction false} Pow2Sum(a: nat, b: nat)
    ensures Pow2(a + b) == Pow2(a) * Pow2(b)
  {
    if a > 0 {
      Pow2Sum(a - 1, b);
    }
  }

  lemma WordWidth()
    ensures Pow2(64) == 0x1_0000_0000_0000_0000
  {
    Pow2Sum(4, 4);
    assert Pow2(8) == 256;
    Pow2Sum(8, 8);
    assert Pow2(16) == 0x1_0000;
    Pow2Sum(16, 16);
    assert Pow2(32) == 0x1_0000_0000;
    Pow2Sum(32, 32);
  }

  predicate TestBit(w: nat, s: nat)
  {
    if s == 0 then w % 2 == 1 else TestBit(w / 2, s - 1)
  }

  function OrBit(w: nat, s: nat): nat
  {
    if s == 0 then w / 2 * 2 + 1 else OrBit(w / 2, s - 1) * 2 + w % 2
  }

  lemma DivTwice(w: nat, p: nat)
    requires p > 0
    ensures w / 2 / p == w / (2 * p)
  {
    var q, r := w / 2 / p, w / 2 % p;
    assert w / 2 == q * p + r;
    assert w == q * (2 * p) + (2 * r + w % 2);
    QuotientIs(w, 2 * p, q, 2 * r + w % 2);
  }

  lemma {:induction false} MultiplesApart(x: nat, q: nat, d: nat)
    ensures x < q ==> x * d + d <= q * d
  {
    if x + 1 < q {
      MultiplesApart(x, q - 1, d);
    }
    assert x < q ==> q * d == (q - 1) * d + d;
  }

  lemma QuotientIs(a: nat, d: nat, q: nat, r: nat)
    requires a == q * d + r && r < d
    ensures a / d == q
  {
    assert a == a / d * d + a % d;
    MultiplesApart(a / d, q, d);
    MultiplesApart(q, a / d, d);
  }

  /** Bit s is the s-th binary digit. */
  lemma {:induction false} TestBitIsBinary(w: nat, s: nat)
    ensures TestBit(w, s) <==> w / Pow2(s) % 2 == 1
  {
    if s > 0 {
      TestBitIsBinary(w / 2, s - 1);
      DivTwice(w, Pow2(s - 1));
    }
  }

  /** Bit s is set, every other bit is left alone. */
  lemma {:induction false} OrBitSetsOne(w: nat, s: nat, t: nat)
    ensures TestBit(OrBit(w, s), t) <==> TestBit(w, t) || s == t
  {
    if s > 0 && t > 0 {
      OrBitSetsOne(w / 2, s - 1, t - 1);
      assert OrBit(w, s) / 2 == OrBit(w / 2, s - 1);
    }
  }

  lemma {:induction false} OrBitFits(w: nat, s: nat, n: nat)
    requires s < n && w < Pow2(n)
    ensures OrBit(w, s) < Pow2(n)
  {
    var p := Pow2(n - 1);
    assert w < 2 * p && w / 2 < p;
    if s > 0 {
      OrBitFits(w / 2, s - 1, n - 1);
      assert OrBit(w / 2, s - 1) <= p - 1;
    }
  }

  lemma {:induction false} ZeroHasNoBits(t: nat)
    ensures !TestBit(0, t)
  {
    if t > 0 {
      ZeroHasNoBits(t - 1);
    }
  }

  function OrWord(w: word, s: nat): word
    requires s < 64
  {
    WordWidth();
    OrBitFits(w, s, 64);
    OrBit(w, s)
  }

  predicate IsSet(words: seq<word>, j: nat)
    requires j < 64 * |words|
  {
    TestBit(words[j / 64], j % 64)
  }

  /** The set of bit positions the packed words hold. */
  ghost function SetBits(words: seq<word>): set<nat>
  {
    set j: nat | j < 64 * |words| && IsSet(words, j)
  }

  lemma ZeroWordsHoldNothing(words: seq<word>)
    requires forall i | 0 <= i < |words| :: words[i] == 0
    ensures SetBits(words) == {}
  {
    forall j: nat | j < 64 * |words| ensures !IsSet(words, j) {
      ZeroHasNoBits(j % 64);
    }
  }

  /** OR-ing one mask into one word adds exactly one position. */
  lemma SetOneBit(words: seq<word>, j: nat)
    requires j < 64 * |words|
    ensures SetBits(words[j / 64 := OrWord(words[j / 64], j % 64)]) == SetBits(words) + {j}
  {
    var after := words[j / 64 := OrWord(words[j / 64], j % 64)];
    forall t: nat | t < 64 * |words|
      ensures IsSet(after, t) <==> IsSet(words, t) || t == j
    {
      if t / 64 == j / 64 {
        OrBitSetsOne(words[j / 64], j % 64, t % 64);
      }
    }
  }
}
