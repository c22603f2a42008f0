/** Byte strings as numbers, and their passage to and from 32-bit words. */
module Bytes {
  import opened Arith
  import opened Limbs

  /** 256 to the power n. */
  function Pw8(n: nat): (p: nat)
    ensures p >= 1
  {
    if n == 0 then 1 else 0x100 * Pw8(n - 1)
  }

  /** The number that the first n bytes of s denote, least significant byte first. */
  function Num(s: seq<u8>, n: nat): nat
    requires n <= |s|
  {
    if n == 0 then 0 else Num(s, n - 1) + Pw8(n - 1) * s[n - 1]
  }

  /** The 32-bit little-endian word at byte offset i. The four bytes occupy disjoint bits. */
  function Load32(s: seq<u8>, i: nat): (w: u32)
    requires i + 4 <= |s|
  {
    s[i] as int + 0x100 * s[i + 1] as int + 0x1_0000 * s[i + 2] as int + 0x100_0000 * s[i + 3] as int
  }

  /** The n words that a byte string holds. */
  function Words(s: seq<u8>, n: nat): (w: seq<u32>)
    requires 4 * n <= |s|
    ensures |w| == n && forall i :: 0 <= i < n ==> w[i] == Load32(s, 4 * i)
  {
    seq(n, i requires 0 <= i < n => Load32(s, 4 * i))
  }

  lemma {:induction false} PwPw8(n: nat)
    ensures Pw(n) == Pw8(4 * n)
  {
    if n == 0 {
    } else {
      PwPw8(n - 1);
      assert Pw8(4 * n) == 0x100 * Pw8(4 * n - 1);
      assert Pw8(4 * n - 1) == 0x100 * Pw8(4 * n - 2);
      assert Pw8(4 * n - 2) == 0x100 * Pw8(4 * n - 3);
    }
  }

  lemma FourBytes(w: nat, a: int, b: int, c: int, d: int)
    ensures w * a + 0x100 * w * b + 0x1_0000 * w * c + 0x100_0000 * w * d
         == w * (a + 0x100 * b + 0x1_0000 * c + 0x100_0000 * d)
  {
  }

  lemma NumFour(s: seq<u8>, m: nat)
    requires m + 4 <= |s|
    ensures Num(s, m + 4) == Num(s, m) + Pw8(m) * Load32(s, m)
  {
    var w := Pw8(m);
    assert Pw8(m + 1) == 0x100 * w && Pw8(m + 2) == 0x1_0000 * w && Pw8(m + 3) == 0x100_0000 * w;
    assert Num(s, m + 1) == Num(s, m) + w * s[m];
    assert Num(s, m + 2) == Num(s, m + 1) + 0x100 * w * s[m + 1];
    assert Num(s, m + 3) == Num(s, m + 2) + 0x1_0000 * w * s[m + 2];
    assert Num(s, m + 4) == Num(s, m + 3) + 0x100_0000 * w * s[m + 3];
    FourBytes(w, s[m], s[m + 1], s[m + 2], s[m + 3]);
  }

  /** Bytes and the words loaded from them denote the same number. */
  lemma {:induction false} NumIsVal(s: seq<u8>, w: seq<u32>, n: nat)
    requires 4 * n <= |s| && n <= |w|
    requires forall i :: 0 <= i < n ==> w[i] == Load32(s, 4 * i)
    ensures Num(s, 4 * n) == Val(w, n)
  {
    if n == 0 {
    } else {
      NumIsVal(s, w, n - 1);
      PwPw8(n - 1);
      NumFour(s, 4 * (n - 1));
    }
  }

  lemma {:induction false} NumBound(s: seq<u8>, n: nat)
    requires n <= |s|
    ensures Num(s, n) < Pw8(n)
  {
    if n == 0 {
    } else {
      NumBound(s, n - 1);
      MulLe(Pw8(n - 1), s[n - 1], 0xff);
    }
  }

  lemma {:induction false} NumAgree(s: seq<u8>, t: seq<u8>, n: nat)
    requires n <= |s| && n <= |t| && s[..n] == t[..n]
    ensures Num(s, n) == Num(t, n)
  {
    if n == 0 {
    } else {
      assert s[n - 1] == s[..n][n - 1] == t[n - 1];
      assert s[..n - 1] == s[..n][..n - 1] == t[..n - 1];
      NumAgree(s, t, n - 1);
    }
  }

  /** Byte strings of one length that denote one number are equal. */
  lemma {:induction false} NumInjective(s: seq<u8>, t: seq<u8>, n: nat)
    requires n <= |s| && n <= |t| && Num(s, n) == Num(t, n)
    ensures s[..n] == t[..n]
  {
    if n == 0 {
    } else {
      NumBound(s, n - 1);
      NumBound(t, n - 1);
      TopDigit(Num(s, n - 1), Num(t, n - 1), Pw8(n - 1), s[n - 1], t[n - 1]);
      NumInjective(s, t, n - 1);
      assert s[..n] == s[..n - 1] + [s[n - 1]] && t[..n] == t[..n - 1] + [t[n - 1]];
    }
  }

  /** Writes the word w at byte offset i. */
  method Store32(out: array<u8>, i: nat, w: u32)
    requires i + 4 <= out.Length
    modifies out
    ensures Load32(out[..], i) == w
    ensures out[..i] == old(out[..i]) && out[i + 4..] == old(out[i + 4..])
  {
    out[i] := w % 0x100;
    out[i + 1] := w / 0x100 % 0x100;
    out[i + 2] := w / 0x1_0000 % 0x100;
    out[i + 3] := w / 0x100_0000 % 0x100;
    Recombine(w);
  }

  lemma Recombine(w: u32)
    ensures w == w % 0x100 + 0x100 * (w / 0x100 % 0x100) + 0x1_0000 * (w / 0x1_0000 % 0x100)
              + 0x100_0000 * (w / 0x100_0000 % 0x100)
  {
    assert w / 0x1_0000 == w / 0x100 / 0x100 && w / 0x100_0000 == w / 0x1_0000 / 0x100;
  }

  /** Writes the first n words of src, and so their number. */
  method Store32Buf(out: array<u8>, src: seq<u32>, n: nat)
    requires n <= |src| && 4 * n <= out.Length
    modifies out
    ensures Num(out[..], 4 * n) == Val(src, n)
    ensures Words(out[..], n) == src[..n]
  {
    for i := 0 to n
      invariant forall k :: 0 <= k < i ==> Load32(out[..], 4 * k) == src[k]
    {
      ghost var before := out[..];
      Store32(out, 4 * i, src[i]);
      forall k | 0 <= k < i
        ensures Load32(out[..], 4 * k) == src[k]
      {
        assert out[..4 * i] == before[..4 * i];
        LoadAgree(before, out[..], 4 * k, 4 * i);
      }
    }
    NumIsVal(out[..], src, n);
  }

  lemma LoadAgree(s: seq<u8>, t: seq<u8>, i: nat, n: nat)
    requires i + 4 <= n <= |s| && n <= |t| && s[..n] == t[..n]
    ensures Load32(s, i) == Load32(t, i)
  {
  }

  /** What storing a word does to the number read so far. */
  lemma StoreNum(s: seq<u8>, t: seq<u8>, i: nat)
    requires 4 * i + 4 <= |s| == |t| && s[..4 * i] == t[..4 * i]
    ensures Num(t, 4 * (i + 1)) == Num(s, 4 * i) + Pw(i) * Load32(t, 4 * i)
  {
    NumAgree(s, t, 4 * i);
    NumFour(t, 4 * i);
    PwPw8(i);
  }

  lemma StoreKeeps(s: seq<u8>, t: seq<u8>, i: nat, w: seq<u32>)
    requires 4 * i + 4 <= |s| == |t| && |s| == 4 * |w| && s[4 * i + 4..] == t[4 * i + 4..]
    requires forall k :: i <= k < |w| ==> Load32(s, 4 * k) == w[k]
    ensures forall k :: i < k < |w| ==> Load32(t, 4 * k) == w[k]
  {
  }

  /** The bytes of a word, least significant first. */
  function WordBytes(w: u32): (b: seq<u8>)
    ensures |b| == 4
  {
    [w % 0x100, w / 0x100 % 0x100, w / 0x1_0000 % 0x100, w / 0x100_0000 % 0x100]
  }

  lemma WordOfBytes(s: seq<u8>, i: nat)
    requires i + 4 <= |s|
    ensures WordBytes(Load32(s, i)) == s[i..i + 4]
  {
    var a, b, c, d := s[i] as int, s[i + 1] as int, s[i + 2] as int, s[i + 3] as int;
    var w := Load32(s, i);
    var y := c + 0x100 * d;
    var x := b + 0x100 * y;
    assert w == a + 0x100 * x;
    hide Load32;
    DivModUnique(w, x, a, 0x100);
    DivModUnique(w, y, a + 0x100 * b, 0x1_0000);
    DivModUnique(w, d, a + 0x100 * b + 0x1_0000 * c, 0x100_0000);
    DivModUnique(x, y, b, 0x100);
    DivModUnique(y, d, c, 0x100);
  }
}
