/** Exclusive or of natural numbers, bit by bit. */
module Bits {

  function Xor(x: nat, y: nat): nat
    decreases x + y
  {
    if x == 0 && y == 0 then 0 else (x + y) % 2 + 2 * Xor(x / 2, y / 2)
  }

  function Power2(n: nat): (p: nat)
    ensures p > 0
  {
    if n == 0 then 1 else 2 * Power2(n - 1)
  }

  lemma {:induction false} XorZero(x: nat)
    ensures Xor(x, 0) == x && Xor(0, x) == x && Xor(x, x) == 0
  {
    if x > 0 {
      XorZero(x / 2);
    }
  }

  lemma {:induction false} XorCommutes(x: nat, y: nat)
    ensures Xor(x, y) == Xor(y, x)
    decreases x + y
  {
    if x > 0 || y > 0 {
      XorCommutes(x / 2, y / 2);
    }
  }

  /** The halves and the low bit of an exclusive or. */
  lemma XorParts(x: nat, y: nat)
    ensures Xor(x, y) / 2 == Xor(x / 2, y / 2) && Xor(x, y) % 2 == (x + y) % 2
  {
  }

  lemma SameParts(a: nat, b: nat)
    requires a / 2 == b / 2 && a % 2 == b % 2
    ensures a == b
  {
  }

  lemma ParityAssociates(p: nat, q: nat, x: nat, y: nat, z: nat)
    requires p % 2 == (x + y) % 2 && q % 2 == (y + z) % 2
    ensures (p + z) % 2 == (x + q) % 2
  {
  }

  lemma {:induction false} XorAssociates(x: nat, y: nat, z: nat)
    ensures Xor(Xor(x, y), z) == Xor(x, Xor(y, z))
    decreases x + y + z
  {
    if x == 0 && y == 0 && z == 0 {
    } else {
      XorAssociates(x / 2, y / 2, z / 2);
      var p, q := Xor(x, y), Xor(y, z);
      XorParts(x, y);
      XorParts(y, z);
      XorParts(p, z);
      XorParts(x, q);
      ParityAssociates(p, q, x, y, z);
      SameParts(Xor(p, z), Xor(x, q));
    }
  }

  lemma XorUndo(x: nat, y: nat)
    ensures Xor(Xor(x, y), y) == x
  {
    XorAssociates(x, y, y);
    XorZero(y);
    XorZero(x);
  }

  lemma XorInjective(x: nat, y: nat, z: nat)
    ensures Xor(x, z) == Xor(y, z) <==> x == y
    ensures Xor(z, x) == Xor(z, y) <==> x == y
  {
    XorUndo(x, z);
    XorUndo(y, z);
    XorCommutes(x, z);
    XorCommutes(y, z);
  }

  lemma XorFour(a: nat, b: nat, p: nat)
    ensures Xor(Xor(a, p), Xor(b, p)) == Xor(a, b)
    ensures Xor(Xor(a, p), b) == Xor(Xor(a, b), p)
    ensures Xor(a, Xor(b, p)) == Xor(Xor(a, b), p)
  {
    XorAssociates(a, b, p);
    XorAssociates(a, p, b);
    XorCommutes(p, b);
    XorAssociates(Xor(a, p), b, p);
    XorUndo(Xor(a, b), p);
  }

  /** The feedback after a shift, from the bit shifted out and the bits left. */
  function Fed(odd: bool, half: nat, p: nat): nat {
    if odd then Xor(half, p) else half
  }

  /** One right shift of a register with feedback `p`. */
  function Feedback(r: nat, p: nat): nat {
    Fed(r % 2 != 0, r / 2, p)
  }

  lemma Parity(x: nat, y: nat)
    ensures (x + y) % 2 != 0 <==> (x % 2 != 0) != (y % 2 != 0)
  {
  }

  lemma FedLinear(odd0: bool, a: nat, odd1: bool, b: nat, p: nat)
    ensures Fed(odd0 != odd1, Xor(a, b), p) == Xor(Fed(odd0, a, p), Fed(odd1, b, p))
  {
    XorFour(a, b, p);
  }

  lemma FeedbackLinear(x: nat, y: nat, p: nat)
    ensures Feedback(Xor(x, y), p) == Xor(Feedback(x, p), Feedback(y, p))
  {
    FedLinear(x % 2 != 0, x / 2, y % 2 != 0, y / 2, p);
    XorParts(x, y);
    Parity(x, y);
  }

  lemma {:induction false} XorBound(x: nat, y: nat, n: nat)
    requires x < Power2(n) && y < Power2(n)
    ensures Xor(x, y) < Power2(n)
  {
    if n > 0 {
      XorBound(x / 2, y / 2, n - 1);
    }
  }

  /** The top bit of one operand survives when the other is narrower. */
  lemma {:induction false} XorTop(x: nat, y: nat, n: nat)
    requires x < Power2(n) <= y
    ensures Xor(x, y) >= Power2(n)
  {
    if n > 0 {
      XorTop(x / 2, y / 2, n - 1);
    } else {
      XorZero(y);
    }
  }

  /** Bits above a power of two leave the bits below it alone. */
  lemma {:induction false} XorHigh(x: nat, y: nat, n: nat)
    requires y % Power2(n) == 0
    ensures Xor(x, y) % Power2(n) == x % Power2(n)
    decreases n
  {
    if n > 0 {
      var p := Power2(n - 1);
      LowBits(x, p);
      LowBits(y, p);
      LowBits(Xor(x, y), p);
      XorParts(x, y);
      Parity(x, y);
      XorHigh(x / 2, y / 2, n - 1);
    }
  }

  lemma LowBits(x: nat, p: nat)
    requires p > 0
    ensures x % (2 * p) == x % 2 + 2 * (x / 2 % p)
  {
    var q, r := x / 2 / p, x / 2 % p;
    assert x / 2 == q * p + r;
    assert x == 2 * (q * p + r) + x % 2;
    assert 2 * (q * p) == q * (2 * p);
    Remainder(x, 2 * p, q, x % 2 + 2 * r);
  }

  lemma Remainder(x: int, d: int, q: int, r: int)
    requires d > 0 && x == q * d + r && 0 <= r < d
    ensures x % d == r
  {
    var k := x / d - q;
    assert k * d == r - x % d;
    Multiple(k, d);
  }

  lemma Multiple(k: int, d: int)
    requires d > 0
    ensures k >= 1 ==> k * d >= d
    ensures k <= -1 ==> k * d <= -d
  {
  }

  lemma Powers()
    ensures Power2(8) == 0x100 && Power2(15) == 0x8000 && Power2(16) == 0x1_0000 && Power2(32) == 0x1_0000_0000
  {
    assert Power2(4) == 0x10;
    assert Power2(8) == 0x100;
    assert Power2(12) == 0x1000;
    assert Power2(15) == 0x8000;
    assert Power2(16) == 0x1_0000;
    assert Power2(20) == 0x10_0000;
    assert Power2(24) == 0x100_0000;
    assert Power2(28) == 0x1000_0000;
    assert Power2(32) == 0x1_0000_0000;
  }
}
