/** Bytes and the big-endian integers of `encoding/binary`. */
module Bytes {
  type byte = x: int | 0 <= x < 256

  type bytes = seq<byte>

  const TWO_64: int := 0x1_0000_0000_0000_0000

  function BE16(n: int): bytes
    requires 0 <= n < 0x1_0000
  {
    [n / 256, n % 256]
  }

  function FromBE16(s: bytes): (n: int)
    requires |s| == 2
    ensures 0 <= n < 0x1_0000
  {
    (s[0] as int) * 256 + s[1]
  }

  function BE24(n: int): bytes
    requires 0 <= n < 0x100_0000
  {
    [n / 0x1_0000, n / 256 % 256, n % 256]
  }

  function FromBE24(s: bytes): (n: int)
    requires |s| == 3
    ensures 0 <= n < 0x100_0000
  {
    (s[0] as int) * 0x1_0000 + (s[1] as int) * 256 + s[2]
  }

  /** A big-endian number of any width: `Uint64` on 8 bytes. */
  function FromBE(s: bytes): (n: nat)
  {
    if s == [] then 0 else FromBE(s[..|s| - 1]) * 256 + s[|s| - 1]
  }

  /** The low `w` bytes of `n`, most significant first: `PutUint64` for w = 8. */
  function BE(n: nat, w: nat): (s: bytes)
    ensures |s| == w
  {
    if w == 0 then [] else BE(n / 256, w - 1) + [n % 256]
  }

  function Pow256(w: nat): nat
  {
    if w == 0 then 1 else 256 * Pow256(w - 1)
  }

  /** The low `w` bytes tell numbers below 256^w apart. */
  lemma {:induction false} BEInjective(a: nat, b: nat, w: nat)
    requires a < Pow256(w) && b < Pow256(w) && BE(a, w) == BE(b, w)
    ensures a == b
  {
    if w > 0 {
      var s, t := BE(a, w), BE(b, w);
      assert s[w - 1] == a % 256 && t[w - 1] == b % 256;
      assert s[..w - 1] == BE(a / 256, w - 1) && t[..w - 1] == BE(b / 256, w - 1);
      BEInjective(a / 256, b / 256, w - 1);
    }
  }

  /** Reading undoes writing, on all the numbers that fit. */
  lemma {:induction false} FromBEInverse(n: nat, w: nat)
    requires n < Pow256(w)
    ensures FromBE(BE(n, w)) == n
  {
    if w > 0 {
      FromBEInverse(n / 256, w - 1);
      assert BE(n, w)[..w - 1] == BE(n / 256, w - 1);
    }
  }

  lemma FromBEOneMore(s: bytes, k: nat)
    requires k < |s|
    ensures FromBE(s[..k + 1]) == FromBE(s[..k]) * 256 + s[k]
  {
    assert s[..k + 1][..k] == s[..k];
  }

  /** Eight bytes from an offset on, most significant first, written out. */
  function Uint64At(s: bytes, o: nat): int
    requires o + 8 <= |s|
  {
    (((((((s[o] as int) * 256 + s[o + 1]) * 256 + s[o + 2]) * 256 + s[o + 3]) * 256 + s[o + 4]) * 256
      + s[o + 5]) * 256 + s[o + 6]) * 256 + s[o + 7]
  }

  lemma FromBEOfEight(s: bytes, o: nat)
    requires o + 8 <= |s|
    ensures FromBE(s[o..o + 8]) == Uint64At(s, o)
  {
    var t := s[o..o + 8];
    FirstFour(t);
    FromBEOneMore(t, 4);
    FromBEOneMore(t, 5);
    FromBEOneMore(t, 6);
    FromBEOneMore(t, 7);
    assert t[..8] == t;
  }

  lemma FirstFour(t: bytes)
    requires |t| >= 4
    ensures FromBE(t[..4]) == (((t[0] as int) * 256 + t[1]) * 256 + t[2]) * 256 + t[3]
  {
    FromBEOneMore(t, 0);
    FromBEOneMore(t, 1);
    FromBEOneMore(t, 2);
    FromBEOneMore(t, 3);
  }

  /** `PutUint64` writes the bytes that `Uint64` reads back. */
  lemma Uint64RoundTrip(n: nat, rest: bytes)
    requires n < TWO_64
    ensures Uint64At(BE(n, 8) + rest, 0) == n
  {
    EightBytes();
    FromBEInverse(n, 8);
    FromBEOfEight(BE(n, 8) + rest, 0);
    assert (BE(n, 8) + rest)[0..8] == BE(n, 8);
  }

  lemma EightBytes()
    ensures Pow256(8) == TWO_64
  {
    assert Pow256(4) == 0x1_0000_0000;
  }

  lemma BE16Inverse(n: int, s: bytes)
    requires 0 <= n < 0x1_0000 && |s| == 2
    ensures FromBE16(BE16(n)) == n
    ensures BE16(FromBE16(s)) == s
  {
  }

  lemma BE24Inverse(n: int, s: bytes)
    requires 0 <= n < 0x100_0000 && |s| == 3
    ensures FromBE24(BE24(n)) == n
    ensures BE24(FromBE24(s)) == s
  {
    assert n / 256 == n / 0x1_0000 * 256 + n / 256 % 256;
    var low := (s[1] as int) * 256 + s[2];
    assert FromBE24(s) == (s[0] as int) * 0x1_0000 + low && 0 <= low < 0x1_0000;
    assert FromBE24(s) / 256 == (s[0] as int) * 256 + s[1];
  }

  function Concat(parts: seq<bytes>): bytes
  {
    if parts == [] then [] else parts[0] + Concat(parts[1..])
  }

  lemma {:induction false} ConcatAppend(a: seq<bytes>, b: seq<bytes>)
    ensures Concat(a + b) == Concat(a) + Concat(b)
  {
    if a == [] {
      assert a + b == b;
    } else {
      ConcatAppend(a[1..], b);
      assert (a + b)[1..] == a[1..] + b;
      assert Concat(a + b) == a[0] + (Concat(a[1..]) + Concat(b));
    }
  }

  lemma ConcatOne(b: bytes)
    ensures Concat([b]) == b
  {
    assert Concat([b]) == b + Concat([]);
  }
}
