/** Powers of two, and the C operators on unsigned words that the sources apply, as arithmetic
    on naturals. */
module Bits {
  import opened Arith

  function Pow2(n: nat): (p: nat)
    ensures p >= 1
  {
    if n == 0 then 1 else 2 * Pow2(n - 1)
  }

  lemma {:induction false} Pow2Add(m: nat, n: nat)
    ensures Pow2(m + n) == Pow2(m) * Pow2(n)
  {
    if m == 0 {
    } else {
      Pow2Add(m - 1, n);
    }
  }

  lemma {:induction false} Pow2Mono(m: nat, n: nat)
    requires m <= n
    ensures Pow2(m) <= Pow2(n)
  {
    Pow2Add(m, n - m);
  }

  lemma Pow2Values()
    ensures Pow2(0) == 1 && Pow2(2) == 4 && Pow2(3) == 8 && Pow2(4) == 0x10 && Pow2(5) == 0x20
    ensures Pow2(6) == 0x40 && Pow2(7) == 0x80 && Pow2(8) == 0x100
    ensures Pow2(12) == 0x1000 && Pow2(13) == 0x2000 && Pow2(16) == 0x1_0000 && Pow2(19) == 0x8_0000
    ensures Pow2(20) == 0x10_0000 && Pow2(24) == 0x100_0000 && Pow2(25) == 0x200_0000
    ensures Pow2(26) == 0x400_0000 && Pow2(32) == 0x1_0000_0000
  {
  }

  /** Bitwise or of two unsigned words. */
  function Or(a: nat, b: nat): nat {
    if a == 0 then b
    else if b == 0 then a
    else 2 * Or(a / 2, b / 2) + (if a % 2 == 1 || b % 2 == 1 then 1 else 0)
  }

  /** The shifts of unsigned words: to the right, and to the left within 32 bits. */
  function Shr(x: nat, n: nat): (y: nat) {
    DivNat(x, Pow2(n));
    x / Pow2(n)
  }

  lemma ShrNone(x: nat)
    ensures Shr(x, 0) == x
  {
    DivModUnique(x, x, 0, 1);
  }

  function Shl32(x: nat, n: nat): (y: nat)
    ensures y < 0x1_0000_0000
  {
    (x * Pow2(n)) % 0x1_0000_0000
  }

  /** Bit i of an unsigned word. */
  function Bit(a: nat, i: nat): (b: nat)
    ensures b <= 1
  {
    (a / Pow2(i)) % 2
  }

  /** Words whose set bits lie in disjoint ranges are added by `|`. */
  lemma {:induction false} OrDisjoint(a: nat, m: nat, k: nat)
    requires a < Pow2(k)
    ensures Or(a, m * Pow2(k)) == a + m * Pow2(k)
  {
    if k == 0 || a == 0 || m == 0 {
    } else {
      hide Pow2, Or;
      Pow2Next(k - 1);
      HalfBelow(a, Pow2(k - 1));
      OrDisjoint(a / 2, m, k - 1);
      TwoFold(Pow2(k - 1), m, Pow2(k));
      OrOfEven(a, m * Pow2(k - 1));
    }
  }

  lemma OrOfEven(a: nat, h: nat)
    requires Or(a / 2, h) == a / 2 + h
    ensures Or(a, 2 * h) == a + 2 * h
  {
  }

  /** Bitwise exclusive or of two unsigned words. */
  function Xor(a: nat, b: nat): nat {
    if a == 0 && b == 0 then 0 else 2 * Xor(a / 2, b / 2) + (a % 2 + b % 2) % 2
  }

  lemma XorIs(a: nat, b: nat)
    ensures Xor(a, b) == 2 * Xor(a / 2, b / 2) + (a % 2 + b % 2) % 2
  {
  }

  /** Applied twice, a mask cancels. */
  lemma {:induction false} XorTwice(a: nat, b: nat)
    ensures Xor(Xor(a, b), b) == a
    decreases a + b
  {
    if a == 0 && b == 0 {
    } else {
      hide Xor;
      XorTwice(a / 2, b / 2);
      XorIs(a, b);
      XorIs(Xor(a, b), b);
      XorHalved(Xor(a, b), Xor(a / 2, b / 2), a, b);
    }
  }

  lemma XorHalved(x: nat, q: nat, a: nat, b: nat)
    requires x == 2 * q + (a % 2 + b % 2) % 2
    ensures x / 2 == q && (x % 2 + b % 2) % 2 == a % 2
  {
  }

  lemma {:induction false} XorComm(a: nat, b: nat)
    ensures Xor(a, b) == Xor(b, a)
  {
    if a == 0 && b == 0 {
    } else {
      XorComm(a / 2, b / 2);
    }
  }

  lemma {:induction false} XorZero(a: nat)
    ensures Xor(a, 0) == a
  {
    if a == 0 {
    } else {
      XorZero(a / 2);
    }
  }

  lemma {:induction false} XorBound(a: nat, b: nat, n: nat)
    requires a < Pow2(n) && b < Pow2(n)
    ensures Xor(a, b) < Pow2(n)
  {
    if n == 0 {
    } else {
      XorBound(a / 2, b / 2, n - 1);
    }
  }

  /** The low n bits and the bits above them are masked separately. */
  lemma {:induction false} XorSplit(a: nat, h: nat, b: nat, g: nat, n: nat)
    requires a < Pow2(n) && b < Pow2(n)
    ensures Xor(a + Pow2(n) * h, b + Pow2(n) * g) == Xor(a, b) + Pow2(n) * Xor(h, g)
    decreases n
  {
    if n == 0 {
      XorNone(a, h, b, g);
    } else {
      hide *;
      var p := Pow2(n - 1);
      Pow2Next(n - 1);
      HalfBelow(a, p);
      HalfBelow(b, p);
      XorSplit(a / 2, h, b / 2, g, n - 1);
      XorDoubled(a, h, b, g, p, Pow2(n));
    }
  }

  lemma XorStep(a: nat, b: nat, x: nat, y: nat, z: nat)
    requires Xor(a / 2 + x, b / 2 + y) == Xor(a / 2, b / 2) + z
    ensures Xor(a + 2 * x, b + 2 * y) == Xor(a, b) + 2 * z
  {
    hide *;
    XorIs(a, b);
    XorIs(a + 2 * x, b + 2 * y);
    XorAbove(a, x);
    XorAbove(b, y);
  }

  lemma XorNone(a: nat, h: nat, b: nat, g: nat)
    requires a < Pow2(0) && b < Pow2(0)
    ensures Xor(a + Pow2(0) * h, b + Pow2(0) * g) == Xor(a, b) + Pow2(0) * Xor(h, g)
  {
    assert Pow2(0) == 1 && a == 0 && b == 0 && Xor(0, 0) == 0;
  }

  lemma Pow2Next(n: nat)
    ensures Pow2(n + 1) == 2 * Pow2(n)
  {
  }

  lemma XorDoubled(a: nat, h: nat, b: nat, g: nat, p: nat, q: nat)
    requires q == 2 * p
    requires Xor(a / 2 + p * h, b / 2 + p * g) == Xor(a / 2, b / 2) + p * Xor(h, g)
    ensures Xor(a + q * h, b + q * g) == Xor(a, b) + q * Xor(h, g)
  {
    hide *;
    TwoFold(p, h, q);
    TwoFold(p, g, q);
    TwoFold(p, Xor(h, g), q);
    XorStep(a, b, p * h, p * g, p * Xor(h, g));
  }

  lemma HalfBelow(a: nat, p: nat)
    requires a < 2 * p
    ensures a / 2 < p
  {
  }

  lemma TwoFold(p: nat, h: nat, q: nat)
    requires q == 2 * p
    ensures q * h == 2 * (p * h) && p * h >= 0
  {
  }

  lemma XorAbove(a: nat, x: nat)
    ensures (a + 2 * x) / 2 == a / 2 + x && (a + 2 * x) % 2 == a % 2
  {
  }

  /** Bitwise and of two unsigned words, and the complement within 32 bits. */
  function And(a: nat, b: nat): nat {
    if a == 0 || b == 0 then 0 else 2 * And(a / 2, b / 2) + (if a % 2 == 1 && b % 2 == 1 then 1 else 0)
  }

  function Not32(x: nat): (y: nat)
    requires x < 0x1_0000_0000
    ensures y < 0x1_0000_0000
  {
    0xffff_ffff - x
  }
}
