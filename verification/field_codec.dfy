/** Field elements and their 32-byte encodings. */
module FieldCodec {
  import opened Arith
  import opened Bits
  import opened Limbs
  import opened Bytes
  import opened ScalarBits
  import opened Field25519

  function Load24(s: seq<u8>, i: nat): (w: nat)
    requires i + 3 <= |s|
    ensures w < 0x100_0000
  {
    s[i] as int + 0x100 * s[i + 1] as int + 0x1_0000 * s[i + 2] as int
  }

  lemma NumThree(s: seq<u8>, m: nat)
    requires m + 3 <= |s|
    ensures Num(s, m + 3) == Num(s, m) + Pw8(m) * Load24(s, m)
  {
    var w := Pw8(m);
    assert Pw8(m + 1) == 0x100 * w && Pw8(m + 2) == 0x1_0000 * w;
    assert Num(s, m + 1) == Num(s, m) + w * s[m];
    assert Num(s, m + 2) == Num(s, m + 1) + 0x100 * w * s[m + 1];
    assert Num(s, m + 3) == Num(s, m + 2) + 0x1_0000 * w * s[m + 2];
    FourBytes(w, s[m], s[m + 1], s[m + 2], 0);
  }

  /** The ten wide limbs a byte string splits into; limb 9 loses the ignored top bits. */
  function Split(s: seq<u8>, nbMask: nat): (t: seq<i64>)
    requires |s| == 32 && nbMask <= 24
    ensures |t| == 10
  {
    [Load32(s, 0), Load24(s, 4) * 0x40, Load24(s, 7) * 0x20, Load24(s, 10) * 8, Load24(s, 13) * 4,
     Load32(s, 16), Load24(s, 20) * 0x80, Load24(s, 23) * 0x20, Load24(s, 26) * 0x10,
     Top24(s, nbMask) * 4]
  }

  /** The top limb, without the ignored bits. */
  function Top24(s: seq<u8>, nbMask: nat): (w: nat)
    requires |s| == 32 && nbMask <= 24
    ensures w < 0x100_0000
  {
    var x := Load24(s, 29);
    ModLe(x, Pow2(24 - nbMask));
    x % Pow2(24 - nbMask)
  }

  /** Decodes a byte string, ignoring its top nbMask bits. */
  method FeFromBytesMask(h: array<i32>, s: seq<u8>, nbMask: nat)
    requires h.Length == 10 && |s| == 32 && nbMask <= 24
    modifies h
    ensures h[..] == Carried(Split(s, nbMask)) && Tight(h[..])
    ensures Cong(FeVal(h[..]), Num(s, 32) % Pow2(256 - nbMask), P())
  {
    SplitWithin(s, nbMask);
    SplitVal(s, nbMask);
    FeCarry(h, Split(s, nbMask));
  }

  lemma SplitWithin(s: seq<u8>, nbMask: nat)
    requires |s| == 32 && nbMask <= 24
    ensures Carriable(Split(s, nbMask))
  {
  }

  lemma ModLe(x: nat, m: nat)
    requires 0 < m
    ensures 0 <= x % m <= x
  {
  }

  lemma {:induction false} WPow2(i: nat)
    ensures W(i) == Pow2((51 * i + 1) / 2)
  {
    if i == 0 {
    } else {
      WPow2(i - 1);
      WNext(i);
      hide *;
      var e := (51 * (i - 1) + 1) / 2;
      Pow2Values();
      HalfSteps(i);
      Pow2Add(if i % 2 == 0 then 25 else 26, e);
    }
  }

  lemma WNext(i: nat)
    requires i > 0
    ensures W(i) == (if i % 2 == 0 then 0x200_0000 else 0x400_0000) * W(i - 1)
  {
  }

  lemma HalfSteps(i: nat)
    requires i > 0
    ensures (51 * i + 1) / 2 == (51 * (i - 1) + 1) / 2 + if i % 2 == 0 then 25 else 26
  {
  }

  /** A limb loaded from byte offset n and shifted by b bits keeps its weight. */
  lemma ShiftedLimb(i: nat, n: nat, b: nat, x: int)
    requires (51 * i + 1) / 2 + b == 8 * n
    ensures W(i) * (x * Pow2(b)) == Pw8(n) * x
  {
    hide *;
    WPow2(i);
    Pw8IsPow2(n);
    Pow2Add((51 * i + 1) / 2, b);
    MulAssoc(W(i), Pow2(b), x);
    assert x * Pow2(b) == Pow2(b) * x;
  }

  lemma SplitLow(s: seq<u8>, t: seq<int>)
    requires |s| == 32 && |t| == 10
    requires t[0] == Load32(s, 0) && t[1] == Load24(s, 4) * Pow2(6) && t[2] == Load24(s, 7) * Pow2(5)
    requires t[3] == Load24(s, 10) * Pow2(3) && t[4] == Load24(s, 13) * Pow2(2)
    ensures Sum(t, 5) == Num(s, 16)
  {
    NumFour(s, 0);
    NumThree(s, 4);
    NumThree(s, 7);
    NumThree(s, 10);
    NumThree(s, 13);
    ShiftedLimb(1, 4, 6, Load24(s, 4));
    ShiftedLimb(2, 7, 5, Load24(s, 7));
    ShiftedLimb(3, 10, 3, Load24(s, 10));
    ShiftedLimb(4, 13, 2, Load24(s, 13));
    SumFive(t, 0);
    assert Num(s, 0) == 0 && Pw8(0) == 1 && Sum(t, 0) == 0 && W(0) == 1;
  }

  lemma SplitHigh(s: seq<u8>, t: seq<int>, r: int)
    requires |s| == 32 && |t| == 10
    requires t[5] == Load32(s, 16) && t[6] == Load24(s, 20) * Pow2(7) && t[7] == Load24(s, 23) * Pow2(5)
    requires t[8] == Load24(s, 26) * Pow2(4) && t[9] == r * Pow2(2)
    ensures Sum(t, 10) - Sum(t, 5) == Num(s, 29) - Num(s, 16) + Pw8(29) * r
  {
    NumFour(s, 16);
    NumThree(s, 20);
    NumThree(s, 23);
    NumThree(s, 26);
    ShiftedLimb(5, 16, 0, Load32(s, 16));
    assert Pow2(0) == 1;
    ShiftedLimb(6, 20, 7, Load24(s, 20));
    ShiftedLimb(7, 23, 5, Load24(s, 23));
    ShiftedLimb(8, 26, 4, Load24(s, 26));
    ShiftedLimb(9, 29, 2, r);
    SumFive(t, 5);
  }

  lemma SumFive(t: seq<int>, n: nat)
    requires n + 5 <= |t|
    ensures Sum(t, n + 5) == Sum(t, n) + W(n) * t[n] + W(n + 1) * t[n + 1] + W(n + 2) * t[n + 2]
                          + W(n + 3) * t[n + 3] + W(n + 4) * t[n + 4]
  {
    assert Sum(t, n + 2) == Sum(t, n) + W(n) * t[n] + W(n + 1) * t[n + 1];
    assert Sum(t, n + 4) == Sum(t, n + 2) + W(n + 2) * t[n + 2] + W(n + 3) * t[n + 3];
  }

  /** The limbs denote the number without its ignored bits. */
  lemma SplitVal(s: seq<u8>, nbMask: nat)
    requires |s| == 32 && nbMask <= 24
    ensures FeVal(Split(s, nbMask)) == Num(s, 32) % Pow2(256 - nbMask)
  {
    hide *;
    var t, x, m := Split(s, nbMask), Load24(s, 29), Pow2(24 - nbMask);
    SplitShape(s, nbMask);
    SplitLow(s, t);
    SplitHigh(s, t, x % m);
    NumThree(s, 29);
    NumBound(s, 29);
    Pw8IsPow2(29);
    Pow2Add(232, 24 - nbMask);
    Truncated(Num(s, 29), Pw8(29), x, m);
  }

  lemma SplitShape(s: seq<u8>, nbMask: nat)
    requires |s| == 32 && nbMask <= 24
    ensures var t := Split(s, nbMask);
            && t[0] == Load32(s, 0) && t[1] == Load24(s, 4) * Pow2(6) && t[2] == Load24(s, 7) * Pow2(5)
            && t[3] == Load24(s, 10) * Pow2(3) && t[4] == Load24(s, 13) * Pow2(2)
            && t[5] == Load32(s, 16) && t[6] == Load24(s, 20) * Pow2(7) && t[7] == Load24(s, 23) * Pow2(5)
            && t[8] == Load24(s, 26) * Pow2(4) && t[9] == (Load24(s, 29) % Pow2(24 - nbMask)) * Pow2(2)
            && FeVal(t) == Sum(t, 10)
  {
    Pow2Values();
  }

  lemma Truncated(low: nat, w: nat, x: nat, m: nat)
    requires low < w && 0 < m
    ensures 0 < w * m && (low + w * x) % (w * m) == low + w * (x % m)
  {
    var q, r := x / m, x % m;
    assert x == m * q + r;
    MulDistr(w, m * q, r);
    MulAssoc(w, m, q);
    MulLe(w, r, m - 1);
    MulLe(w, 0, r);
    MulSub(w, m, 1);
    DivModUnique(low + w * x, q, low + w * r, w * m);
  }
}
