/** Bytes and the little-endian integers of the firmware's explicit byte formats. */
module Bytes {

  type Byte = n: int | 0 <= n < 256
  type U16 = n: int | 0 <= n < 0x1_0000
  type U32 = n: int | 0 <= n < 0x1_0000_0000
  type U64 = n: int | 0 <= n < 0x1_0000_0000_0000_0000

  /** A 32-bit word used as a set of bits, least significant bit first. */
  type Word = s: seq<bool> | |s| == 32 witness seq(32, _ => false)

  const WORD_BITS := 32
  const NO_BITS: Word := seq(32, _ => false)

  const U64_MAX := 0xFFFF_FFFF_FFFF_FFFF

  /** Unsigned 64-bit arithmetic. */
  function Wrap64(n: int): U64 {
    if 0 <= n <= U64_MAX then n else n % 0x1_0000_0000_0000_0000
  }

  function Power256(n: nat): (p: nat)
    ensures p > 0
  {
    if n == 0 then 1 else 256 * Power256(n - 1)
  }

  /** The low `n` bytes of a number, least significant first. */
  function ToBytes(v: nat, n: nat): (s: seq<Byte>)
    ensures |s| == n
  {
    if n == 0 then [] else [v % 256] + ToBytes(v / 256, n - 1)
  }

  function FromBytes(s: seq<Byte>): nat {
    if s == [] then 0 else s[0] + 256 * FromBytes(s[1..])
  }

  lemma {:induction false} FromToBytes(v: nat, n: nat)
    requires v < Power256(n)
    ensures FromBytes(ToBytes(v, n)) == v
  {
    if n > 0 {
      FromToBytes(v / 256, n - 1);
      assert ToBytes(v, n)[1..] == ToBytes(v / 256, n - 1);
    }
  }

  lemma {:induction false} ToFromBytes(s: seq<Byte>)
    ensures FromBytes(s) < Power256(|s|)
    ensures ToBytes(FromBytes(s), |s|) == s
  {
    if s != [] {
      ToFromBytes(s[1..]);
      assert s == [s[0]] + s[1..];
    }
  }

  lemma Widths()
    ensures Power256(2) == 0x1_0000 && Power256(4) == 0x1_0000_0000 && Power256(8) == 0x1_0000_0000_0000_0000
  {
    assert Power256(1) == 256;
    assert Power256(2) == 0x1_0000;
    assert Power256(3) == 0x100_0000;
    assert Power256(4) == 0x1_0000_0000;
    assert Power256(5) == 0x100_0000_0000;
    assert Power256(6) == 0x1_0000_0000_0000;
    assert Power256(7) == 0x100_0000_0000_0000;
  }

  lemma {:induction false} ToBytesAt(v: nat, n: nat, i: nat)
    requires i < n
    ensures ToBytes(v, n)[i] == (v / Power256(i)) % 256
  {
    if i > 0 {
      ToBytesAt(v / 256, n - 1, i - 1);
      DivideTwice(v, Power256(i - 1));
    }
  }

  lemma DivideTwice(v: nat, p: nat)
    requires p > 0
    ensures v / (256 * p) == v / 256 / p
  {
    var q, r := v / 256 / p, v / 256 % p;
    assert v / 256 == q * p + r;
    assert v == 256 * (q * p + r) + v % 256;
    var low := 256 * r + v % 256;
    assert low < 256 * p;
    assert v == q * (256 * p) + low;
    QuotientIs(v, 256 * p, q, low);
  }

  lemma QuotientIs(v: nat, d: nat, q: nat, r: nat)
    requires d > 0 && v == q * d + r && r < d
    ensures v / d == q
  {
    var k := v / d - q;
    assert v == (v / d) * d + v % d;
    assert k * d == r - v % d;
    MultipleBounds(k, d);
  }

  lemma MultipleBounds(k: int, d: nat)
    ensures k >= 1 ==> k * d >= d
    ensures k <= -1 ==> k * d + d <= 0
  {
  }

  lemma {:induction false} FromBytesSnoc(s: seq<Byte>, b: Byte)
    ensures FromBytes(s + [b]) == FromBytes(s) + b * Power256(|s|)
  {
    if s == [] {
      assert [] + [b] == [b];
    } else {
      FromBytesSnoc(s[1..], b);
      assert (s + [b])[1..] == s[1..] + [b];
    }
  }

  /** The little-endian field of `length` bytes at an offset. */
  function FieldAt(s: seq<Byte>, at: nat, length: nat): (v: nat)
    requires at + length <= |s|
    ensures v < Power256(length)
  {
    ToFromBytes(s[at..at + length]);
    FromBytes(s[at..at + length])
  }

  lemma FieldRoundTrip(s: seq<Byte>, at: nat, length: nat, v: nat)
    requires at + length <= |s| && v < Power256(length)
    ensures FieldAt(s, at, length) == v <==> s[at..at + length] == ToBytes(v, length)
  {
    ToFromBytes(s[at..at + length]);
    FromToBytes(v, length);
  }

  lemma TwoBytes(v: U16)
    ensures ToBytes(v, 2) == [v % 256, v / 256]
  {
    assert ToBytes(v, 2) == [v % 256] + ToBytes(v / 256, 1);
    assert ToBytes(v / 256, 1) == [v / 256 % 256] + ToBytes(v / 256 / 256, 0);
  }
}
