/** The bits of a little-endian byte string. */
module ScalarBits {
  import opened Arith
  import opened Bits
  import opened Limbs
  import opened Bytes

  /** Bit i of a scalar; there is none below position 0. */
  function ScalarBit(s: seq<u8>, i: int): (b: int)
    requires i < 8 * |s|
    ensures 0 <= b <= 1
  {
    if i < 0 then 0 else (s[i / 8] / Pow2(i % 8)) % 2
  }

  lemma {:induction false} Pw8IsPow2(n: nat)
    ensures Pw8(n) == Pow2(8 * n)
  {
    if n == 0 {
    } else {
      Pw8IsPow2(n - 1);
      assert Pow2(8) == 0x100;
      Pow2Add(8, 8 * (n - 1));
    }
  }

  /** The bytes from k on contribute their own number, weighted. */
  lemma {:induction false} NumShift(s: seq<u8>, m: nat, n: nat)
    requires m + n <= |s|
    ensures Num(s, m + n) == Num(s, m) + Pw8(m) * Num(s[m..], n)
  {
    if n == 0 {
    } else {
      NumShift(s, m, n - 1);
      Pw8Add(m, n - 1);
      assert s[m..][n - 1] == s[m + n - 1];
      Distribute(Pw8(m), Num(s[m..], n - 1), Pw8(n - 1), s[m + n - 1]);
    }
  }

  lemma {:induction false} Pw8Add(m: nat, n: nat)
    ensures Pw8(m + n) == Pw8(m) * Pw8(n)
  {
    Pw8IsPow2(m);
    Pw8IsPow2(n);
    Pw8IsPow2(m + n);
    Pow2Add(8 * m, 8 * n);
  }

  /** Bits from position m on do not disturb the bits below. */
  lemma {:induction false} LowBits(x: nat, m: nat, h: nat, j: nat)
    requires j < m
    ensures ((x + Pow2(m) * h) / Pow2(j)) % 2 == (x / Pow2(j)) % 2
  {
    hide *;
    var y := Pow2(m - 1) * h;
    Doubled(m, h);
    HalfSum(x, y);
    if j == 0 {
      Unshifted(x);
      Unshifted(x + 2 * y);
    } else {
      LowBits(x / 2, m - 1, h, j - 1);
      HalfFirst(x, j);
      HalfFirst(x + 2 * y, j);
    }
  }

  lemma Doubled(m: nat, h: nat)
    requires m > 0
    ensures Pow2(m) * h == 2 * (Pow2(m - 1) * h) && Pow2(m - 1) * h >= 0
  {
  }

  lemma HalfSum(x: nat, y: nat)
    ensures (x + 2 * y) / 2 == x / 2 + y && (x + 2 * y) % 2 == x % 2
  {
  }

  lemma Unshifted(x: nat)
    ensures x / Pow2(0) == x
  {
  }

  lemma HalfFirst(x: nat, j: nat)
    requires 0 < j
    ensures x / Pow2(j) == x / 2 / Pow2(j - 1)
  {
    DivDiv(x, 2, Pow2(j - 1));
  }

  lemma FirstByte(s: seq<u8>)
    requires s != []
    ensures Num(s, |s|) == s[0] as int + 0x100 * Num(s[1..], |s| - 1)
  {
    NumShift(s, 1, |s| - 1);
    assert Num(s, 1) == s[0];
  }

  /** Dropping the bytes below k leaves byte k at the bottom. */
  lemma ByteAt(s: seq<u8>, k: nat) returns (rest: nat)
    requires k < |s|
    ensures Num(s, |s|) / Pow2(8 * k) == s[k] + 0x100 * rest
  {
    hide *;
    var n := |s|;
    rest := Num(s[k..][1..], n - k - 1);
    NumShift(s, k, n - k);
    FirstByte(s[k..]);
    NumBound(s, k);
    Pw8IsPow2(k);
    DivModUnique(Num(s, n), Num(s[k..], n - k), Num(s, k), Pow2(8 * k));
  }

  /** A bit of the byte string is that bit of the number it denotes. */
  lemma BitOfNum(s: seq<u8>, i: nat)
    requires i < 8 * |s|
    ensures ScalarBit(s, i) == Bit(Num(s, |s|), i)
  {
    var k, j := i / 8, i % 8;
    var rest := ByteAt(s, k);
    LowBits(s[k], 8, rest, j);
    assert Pow2(8) == 0x100;
    Pow2Add(8 * k, j);
    DivDiv(Num(s, |s|), Pow2(8 * k), Pow2(j));
  }

  /** Reading one more bit of an exponent or a scalar from the top. */
  lemma NextBit(a: nat, i: nat)
    ensures a / Pow2(i) == 2 * (a / Pow2(i + 1)) + Bit(a, i)
  {
    assert Pow2(i + 1) == Pow2(i) * 2;
    DivDiv(a, Pow2(i), 2);
  }

  lemma ShrNext(a: nat, i: nat)
    ensures Shr(a, i) == 2 * Shr(a, i + 1) + Bit(a, i)
  {
    NextBit(a, i);
  }
}
