/** What the operators on unsigned words do to each of their bits. */
module BitLaws {
  import opened Arith
  import opened Bits
  import opened Limbs

  lemma BitFirst(a: nat)
    ensures Bit(a, 0) == a % 2
  {
    DivModUnique(a, a, 0, 1);
  }

  lemma BitNext(a: nat, i: nat)
    ensures Bit(a, i + 1) == Bit(a / 2, i)
  {
    Pow2Next(i);
    DivDiv(a, 2, Pow2(i));
  }

  lemma BitOfZero(i: nat)
    ensures Bit(0, i) == 0
  {
    DivModUnique(0, 0, 0, Pow2(i));
  }

  /** There are no bits above those of the word. */
  lemma NoBit(a: nat, n: nat, i: nat)
    requires a < Pow2(n) && n <= i
    ensures Bit(a, i) == 0
  {
    Pow2Mono(n, i);
    DivModUnique(a, 0, a, Pow2(i));
  }

  lemma BitShr(x: nat, n: nat, i: nat)
    ensures Bit(Shr(x, n), i) == Bit(x, n + i)
  {
    Pow2Add(n, i);
    DivDiv(x, Pow2(n), Pow2(i));
  }

  lemma BitDoubled(a: nat, b: nat, i: nat)
    requires b <= 1
    ensures Bit(2 * a + b, i) == if i == 0 then b else Bit(a, i - 1)
  {
    DivModUnique(2 * a + b, a, b, 2);
    hide Bit;
    if i == 0 {
      BitFirst(2 * a + b);
    } else {
      BitNext(2 * a + b, i - 1);
    }
  }

  lemma {:induction false} BitXor(a: nat, b: nat, i: nat)
    ensures Bit(Xor(a, b), i) == (Bit(a, i) + Bit(b, i)) % 2
  {
    XorIs(a, b);
    hide Xor, Bit;
    BitDoubled(Xor(a / 2, b / 2), (a % 2 + b % 2) % 2, i);
    if i == 0 {
      BitFirst(a);
      BitFirst(b);
    } else {
      BitXor(a / 2, b / 2, i - 1);
      BitNext(a, i - 1);
      BitNext(b, i - 1);
    }
  }

  lemma AndIs(a: nat, b: nat)
    ensures And(a, b) == 2 * And(a / 2, b / 2) + (if a % 2 == 1 && b % 2 == 1 then 1 else 0)
  {
  }

  lemma {:induction false} BitAnd(a: nat, b: nat, i: nat)
    ensures Bit(And(a, b), i) == Bit(a, i) * Bit(b, i)
  {
    AndIs(a, b);
    hide And, Bit;
    BitDoubled(And(a / 2, b / 2), if a % 2 == 1 && b % 2 == 1 then 1 else 0, i);
    if i == 0 {
      BitFirst(a);
      BitFirst(b);
    } else {
      BitAnd(a / 2, b / 2, i - 1);
      BitNext(a, i - 1);
      BitNext(b, i - 1);
    }
  }

  lemma OrIs(a: nat, b: nat)
    ensures Or(a, b) == 2 * Or(a / 2, b / 2) + (if a % 2 == 1 || b % 2 == 1 then 1 else 0)
  {
    if a == 0 {
      OrZero(b / 2);
    } else if b == 0 {
      OrZero(a / 2);
    }
  }

  lemma OrZero(a: nat)
    ensures Or(0, a) == a && Or(a, 0) == a
  {
  }

  lemma {:induction false} BitOr(a: nat, b: nat, i: nat)
    ensures Bit(Or(a, b), i) == if Bit(a, i) == 1 || Bit(b, i) == 1 then 1 else 0
  {
    OrIs(a, b);
    hide Or, Bit;
    BitDoubled(Or(a / 2, b / 2), if a % 2 == 1 || b % 2 == 1 then 1 else 0, i);
    if i == 0 {
      BitFirst(a);
      BitFirst(b);
    } else {
      BitOr(a / 2, b / 2, i - 1);
      BitNext(a, i - 1);
      BitNext(b, i - 1);
    }
  }

  lemma {:induction false} BitComplement(x: nat, n: nat, i: nat)
    requires x < Pow2(n) && i < n
    ensures Bit(Pow2(n) - 1 - x, i) == 1 - Bit(x, i)
  {
    hide *;
    Pow2Next(n - 1);
    var p := Pow2(n - 1);
    HalfBelow(x, p);
    ComplementHalf(x, p);
    BitDoubled(p - 1 - x / 2, 1 - x % 2, i);
    if i == 0 {
      BitFirst(x);
    } else {
      BitComplement(x / 2, n - 1, i - 1);
      BitNext(x, i - 1);
    }
  }

  lemma ComplementHalf(x: nat, p: nat)
    requires x < 2 * p
    ensures 2 * p - 1 - x == 2 * (p - 1 - x / 2) + (1 - x % 2)
  {
  }

  lemma BitNot32(x: nat, i: nat)
    requires x < 0x1_0000_0000 && i < 32
    ensures Bit(Not32(x), i) == 1 - Bit(x, i)
  {
    Pow2Values();
    hide Pow2, Bit;
    BitComplement(x, 32, i);
  }

  /** Shifting to the left moves bits up; those that leave are lost. */
  lemma {:induction false} BitShifted(x: nat, n: nat, i: nat)
    ensures Bit(x * Pow2(n), i) == if i < n then 0 else Bit(x, i - n)
  {
    if n == 0 {
      assert x * Pow2(0) == x;
    } else {
      hide *;
      Pow2Next(n - 1);
      Twice(x, Pow2(n - 1));
      BitDoubled(x * Pow2(n - 1), 0, i);
      if i > 0 {
        BitShifted(x, n - 1, i - 1);
      }
    }
  }

  lemma Twice(x: nat, p: nat)
    ensures x * (2 * p) == 2 * (x * p) + 0 && x * p >= 0
  {
  }

  /** The low m bits. */
  lemma {:induction false} BitLow(x: nat, m: nat, i: nat)
    ensures Bit(x % Pow2(m), i) == if i < m then Bit(x, i) else 0
  {
    if m == 0 {
      DivModUnique(x, x, 0, 1);
      BitOfZero(i);
    } else {
      hide *;
      Pow2Next(m - 1);
      ModHalf(x, Pow2(m - 1));
      BitDoubled(x / 2 % Pow2(m - 1), x % 2, i);
      if i == 0 {
        BitFirst(x);
      } else {
        BitLow(x / 2, m - 1, i - 1);
        BitNext(x, i - 1);
      }
    }
  }

  lemma ModHalf(x: nat, p: nat)
    requires p > 0
    ensures x % (2 * p) == 2 * (x / 2 % p) + x % 2 && x / 2 % p >= 0
  {
    var h := x / 2;
    assert x == 2 * h + x % 2 && h == p * (h / p) + h % p;
    Regrouped(p, h / p);
    DivModUnique(x, h / p, 2 * (h % p) + x % 2, 2 * p);
  }

  lemma Regrouped(p: nat, q: int)
    ensures 2 * (p * q) == q * (2 * p)
  {
  }

  /** The bits of a number put together from a low and a high part. */
  lemma BitJoin(lo: nat, hi: nat, m: nat, k: nat)
    requires lo < Pow2(m)
    ensures Bit(lo + Pow2(m) * hi, k) == if k < m then Bit(lo, k) else Bit(hi, k - m)
  {
    hide *;
    var x := Joined(lo, hi, Pow2(m));
    if k < m {
      BitLow(x, m, k);
    } else {
      ShrIs(x, m);
      BitShr(x, m, k - m);
    }
  }

  lemma Joined(lo: nat, hi: nat, p: nat) returns (x: nat)
    requires lo < p
    ensures x == lo + p * hi && x % p == lo && x / p == hi
  {
    Product(p, hi);
    x := lo + p * hi;
    DivModUnique(x, hi, lo, p);
  }

  lemma Product(m: nat, p: nat)
    ensures m * p >= 0
  {
  }

  lemma ShrIs(x: nat, m: nat)
    ensures Shr(x, m) == x / Pow2(m)
  {
  }

  lemma BitShl32(x: nat, n: nat, i: nat)
    requires i < 32
    ensures Bit(Shl32(x, n), i) == if i < n then 0 else Bit(x, i - n)
  {
    Pow2Values();
    hide Pow2, Bit;
    BitShifted(x, n, i);
    BitLow(x * Pow2(n), 32, i);
  }

  lemma {:induction false} OrBound(a: nat, b: nat, n: nat)
    requires a < Pow2(n) && b < Pow2(n)
    ensures Or(a, b) < Pow2(n)
  {
    if n == 0 {
    } else {
      OrIs(a, b);
      hide Or;
      OrBound(a / 2, b / 2, n - 1);
    }
  }

  lemma {:induction false} AndBound(a: nat, b: nat)
    ensures And(a, b) <= a
  {
    if a == 0 || b == 0 {
    } else {
      AndBound(a / 2, b / 2);
    }
  }

  lemma {:induction false} OrComm(a: nat, b: nat)
    ensures Or(a, b) == Or(b, a)
  {
    if a == 0 || b == 0 {
    } else {
      OrComm(a / 2, b / 2);
    }
  }

  // The operators on 32-bit words

  lemma XorWord(a: u32, b: u32)
    ensures Xor(a, b) < 0x1_0000_0000
  {
    Pow2Values();
    XorBound(a, b, 32);
    hide Pow2, Xor;
  }

  function XorU32(a: u32, b: u32): u32 {
    XorWord(a, b);
    Xor(a, b)
  }

  lemma OrWord(a: u32, b: u32)
    ensures Or(a, b) < 0x1_0000_0000
  {
    Pow2Values();
    hide Pow2, Or;
    OrBound(a, b, 32);
  }

  function OrU32(a: u32, b: u32): u32 {
    OrWord(a, b);
    Or(a, b)
  }

  function AndU32(a: u32, b: u32): u32 {
    AndBound(a, b);
    And(a, b)
  }

  /** x >> n and x << n. */
  function ShrU32(x: u32, n: nat): u32 {
    DivNat(x, Pow2(n));
    Shr(x, n)
  }
}
