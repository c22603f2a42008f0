/** The multiplier of Poly1305, bit by bit. */
module Poly1305Laws {
  import opened Bits
  import opened BitLaws
  import opened Limbs
  import opened Bytes
  import opened Poly1305Field
  import opened Poly1305

  /** The bits that section 2.5 of RFC 8439 clears: the top four of every word, and the low two of all but the first. */
  predicate Cleared(k: nat) {
    k in {28, 29, 30, 31, 60, 61, 62, 63, 92, 93, 94, 95, 124, 125, 126, 127, 32, 33, 64, 65, 96, 97}
  }

  /** The multiplier is the first half of the key without those bits. */
  lemma ClampedBits(key: seq<u8>, k: nat)
    requires |key| == 32 && k < 128
    ensures Bit(Multiplier(key), k) == if Cleared(k) then 0 else Bit(Num(key, 16), k)
  {
    hide *;
    var i, j := k / 32, k % 32;
    var w0, w1, w2, w3 := Load32(key, 0), Load32(key, 4), Load32(key, 8), Load32(key, 12);
    MultiplierIs(key);
    NumIs(key);
    FourWords(Clamp(0, w0), Clamp(1, w1), Clamp(2, w2), Clamp(3, w3), k);
    FourWords(w0, w1, w2, w3, k);
    ClampBit(i, [w0, w1, w2, w3][i], j);
    ClearedIs(k);
  }

  lemma ClearedIs(k: nat)
    requires k < 128
    ensures Cleared(k) <==> k % 32 >= 28 || (k / 32 > 0 && k % 32 < 2)
  {
  }

  lemma MultiplierIs(key: seq<u8>)
    requires |key| == 32
    ensures Multiplier(key)
         == V(Clamp(0, Load32(key, 0)), Clamp(1, Load32(key, 4)), Clamp(2, Load32(key, 8)), Clamp(3, Load32(key, 12)), 0)
  {
    hide V, Clamp, Load32;
  }

  lemma NumIs(key: seq<u8>)
    requires |key| == 32
    ensures Num(key, 16) == V(Load32(key, 0), Load32(key, 4), Load32(key, 8), Load32(key, 12), 0)
  {
    hide *;
    NumFour(key, 0);
    NumFour(key, 4);
    NumFour(key, 8);
    NumFour(key, 12);
    Weighted(key, Load32(key, 0), Load32(key, 4), Load32(key, 8), Load32(key, 12));
  }

  lemma Weighted(key: seq<u8>, a0: int, a1: int, a2: int, a3: int)
    requires |key| == 32
    ensures Num(key, 0) + Pw8(0) * a0 + Pw8(4) * a1 + Pw8(8) * a2 + Pw8(12) * a3 == V(a0, a1, a2, a3, 0)
  {
    PwPw8(1);
    PwPw8(2);
    PwPw8(3);
    assert Num(key, 0) == 0 && Pw8(0) == 1;
    hide Num, Pw, Pw8;
  }

  /** Bit k of four words lies in word k / 32. */
  lemma FourWords(a0: u32, a1: u32, a2: u32, a3: u32, k: nat)
    requires k < 128
    ensures V(a0, a1, a2, a3, 0) >= 0
    ensures Bit(V(a0, a1, a2, a3, 0), k) == Bit([a0, a1, a2, a3][k / 32], k % 32)
  {
    hide *;
    Pow2Values();
    Nested(a0, a1, a2, a3);
    var x2 := a2 + 0x1_0000_0000 * a3;
    var x1 := a1 + 0x1_0000_0000 * x2;
    BitJoin(a0, x1, 32, k);
    if k >= 32 {
      BitJoin(a1, x2, 32, k - 32);
    }
    if k >= 64 {
      BitJoin(a2, a3, 32, k - 64);
    }
  }

  lemma Nested(a0: nat, a1: nat, a2: nat, a3: nat)
    ensures V(a0, a1, a2, a3, 0) == a0 + 0x1_0000_0000 * (a1 + 0x1_0000_0000 * (a2 + 0x1_0000_0000 * a3))
  {
    assert Pw(1) == 0x1_0000_0000 && Pw(2) == 0x1_0000_0000 * Pw(1) && Pw(3) == 0x1_0000_0000 * Pw(2);
  }

  lemma ClampBit(i: nat, w: u32, j: nat)
    requires j < 32
    ensures Bit(Clamp(i, w), j) == if j >= 28 || (i > 0 && j < 2) then 0 else Bit(w, j)
  {
    ClampIs(i, w);
    Pow28();
    hide *;
    var u := w % Pow2(28);
    BitLow(w, 28, j);
    if i > 0 {
      BitShifted(Shr(u, 2), 2, j);
      if j >= 2 {
        BitShr(u, 2, j - 2);
      }
    }
  }

  lemma Pow28()
    ensures Pow2(28) == 0x1000_0000
  {
    Pow2Values();
    Pow2Add(16, 12);
  }

  lemma ClampIs(i: nat, w: u32)
    ensures Clamp(i, w) == if i == 0 then w % Pow2(28) else Shr(w % Pow2(28), 2) * Pow2(2)
  {
    Pow28();
    Pow2Values();
    var u := w % 0x1000_0000;
    assert u % 4 == w % 4 && u - u % 4 == u / 4 * 4;
    hide Pow2;
  }
}
