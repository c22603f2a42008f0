/** Arithmetic modulo the group order of Ed25519: conditional subtraction, Barrett reduction, and
    the scalar operations built on them. */
module ScalarModL {
  import opened Arith
  import opened Limbs
  import opened Bytes

  /** The group order, 2^252 + 27742317777372353535851937790883648493. */
  function Ell(): (l: nat)
    ensures l > 2
  {
    0x1000000000000000000000000000000014def9dea2f79cd65812631a5cf5d3ed
  }

  /** The words of the group order. */
  function L(): (l: seq<u32>)
    ensures |l| == 8
  {
    [0x5cf5d3ed, 0x5812631a, 0xa2f79cd6, 0x14def9de, 0x00000000, 0x00000000, 0x00000000, 0x10000000]
  }

  /** The reciprocal that Barrett reduction multiplies by, truncated to nine words. */
  function Reciprocal(): (r: seq<u32>)
    ensures |r| == 9
  {
    [0x0a2c131b, 0xed9ce5a3, 0x086329a7, 0x2106215d,
     0xffffffeb, 0xffffffff, 0xffffffff, 0xffffffff, 0xf]
  }

  lemma Weights()
    ensures Pw(0) == 1 && Pw(1) == 0x1_0000_0000 && Pw(2) == 0x1_00000000_00000000
    ensures Pw(3) == 0x1_00000000_00000000_00000000
    ensures Pw(4) == 0x1_00000000_00000000_00000000_00000000
    ensures Pw(5) == 0x1_00000000_00000000_00000000_00000000_00000000
    ensures Pw(6) == 0x1_00000000_00000000_00000000_00000000_00000000_00000000
    ensures Pw(7) == 0x1_00000000_00000000_00000000_00000000_00000000_00000000_00000000
    ensures Pw(8) == 0x1_00000000_00000000_00000000_00000000_00000000_00000000_00000000_00000000
  {
  }

  /** The number in eight words, written out. */
  lemma Val8(s: seq<u32>)
    requires |s| >= 8
    ensures Val(s, 8) == s[0] as int + Pw(1) * s[1] + Pw(2) * s[2] + Pw(3) * s[3] + Pw(4) * s[4] + Pw(5) * s[5]
                       + Pw(6) * s[6] + Pw(7) * s[7]
  {
    assert Val(s, 1) == s[0];
    assert Val(s, 2) == s[0] as int + Pw(1) * s[1];
    assert Val(s, 4) == Val(s, 2) + Pw(2) * s[2] + Pw(3) * s[3];
    assert Val(s, 6) == Val(s, 4) + Pw(4) * s[4] + Pw(5) * s[5];
  }

  lemma LValue()
    ensures Val(L(), 8) == Ell() && 2 * Ell() < Pw(8)
  {
    Weights();
    Val8(L());
  }

  /** The reciprocal is the quotient of 2^512 by the group order, rounded down. */
  lemma ReciprocalValue() returns (e: nat)
    ensures Val(Reciprocal(), 9) * Ell() + e == Pw(8) * Pw(8) && e < Ell()
  {
    Weights();
    Val8(Reciprocal());
    e := Pw(8) * Pw(8) - Val(Reciprocal(), 9) * Ell();
  }

  /** One column of x + ~l + 1, where ~ complements a word: it computes x - l with borrows as
      missing carries. */
  lemma ComplementColumn(w: nat, lo: nat, c: nat, vx: nat, vl: nat, x: nat, l: nat, y: nat)
    requires lo + w * c == vx + w - vl
    requires y == c + x + (BASE - 1 - l)
    ensures (lo + w * (y % BASE)) + (BASE * w) * (y / BASE) == (vx + w * x) + BASE * w - (vl + w * l)
  {
  }

  /** After i columns of x + ~l + 1 the words kept denote lo and the carry is c. */
  ghost predicate Borrowed(lo: nat, c: nat, x: seq<u32>, l: seq<u32>, i: nat)
    requires i <= |x| && i <= |l|
  {
    c <= 1 && lo < Pw(i) && lo + Pw(i) * c == Val(x, i) + Pw(i) - Val(l, i)
  }

  lemma BorrowStart(x: seq<u32>, l: seq<u32>)
    ensures Borrowed(0, 1, x, l, 0)
  {
  }

  /** The same when the subtraction happens only if take is set. */
  ghost predicate Taken(take: bool, lo: nat, c: nat, x: seq<u32>, l: seq<u32>, i: nat)
    requires i <= |x| && i <= |l|
  {
    if take then Borrowed(lo, c, x, l, i) else c == 0 && lo == Val(x, i)
  }

  lemma BorrowStep(lo: nat, c: nat, x: seq<u32>, l: seq<u32>, i: nat, y: nat) returns (lo': nat)
    requires i < |x| && i < |l| && Borrowed(lo, c, x, l, i)
    requires y == c + x[i] + (BASE - 1 - l[i])
    ensures lo' == lo + Pw(i) * (y % BASE) && Borrowed(lo', y / BASE, x, l, i + 1)
  {
    ComplementColumn(Pw(i), lo, c, Val(x, i), Val(l, i), x[i], l[i], y);
    MulLe(Pw(i), y % BASE, BASE - 1);
    lo' := lo + Pw(i) * (y % BASE);
  }

  /** The carry out of x + ~l + 1 says whether x is at least l. */
  lemma BorrowDone(lo: nat, c: nat, x: seq<u32>, l: seq<u32>)
    requires |x| >= 8 && |l| >= 8 && Borrowed(lo, c, x, l, 8)
    ensures c == if Val(x, 8) >= Val(l, 8) then 1 else 0
    ensures lo == (Val(x, 8) - Val(l, 8)) % Pw(8)
  {
    ValBound(x, 8);
    ValBound(l, 8);
    var w, d := Pw(8), Val(x, 8) - Val(l, 8);
    hide *;
    if c == 0 {
      DivModUnique(d, -1, lo, w);
    } else {
      DivModUnique(d, 0, lo, w);
    }
  }

  /** 1 if x is at least l, 0 if it is below. */
  method IsAbove(x: seq<u32>, l: seq<u32>) returns (carry: u64)
    requires |x| >= 8 && |l| >= 8
    ensures carry == if Val(x, 8) >= Val(l, 8) then 1 else 0
  {
    ghost var lo: nat := 0;
    carry := 1;
    BorrowStart(x, l);
    hide *;
    for i := 0 to 8
      invariant carry <= 1 && Borrowed(lo, carry, x, l, i)
    {
      ghost var c: nat := carry;
      carry := carry + x[i] + (BASE - 1 - l[i]);
      lo := BorrowStep(lo, c, x, l, i, carry);
      carry := carry / BASE;
    }
    BorrowDone(lo, carry, x, l);
  }

  lemma TakenStep(take: bool, lo: nat, c: nat, x: seq<u32>, l: seq<u32>, i: nat, y: nat, r: seq<u32>, r': seq<u32>)
    requires i < |x| && i < |l| && i < |r| == |r'| && lo == Val(r, i) && Taken(take, lo, c, x, l, i)
    requires y == c + x[i] + (if take then BASE - 1 - l[i] else 0)
    requires r' == r[i := y % BASE]
    ensures Taken(take, Val(r', i + 1), y / BASE, x, l, i + 1)
  {
    ValStore(r, r', i);
    if take {
      var lo' := BorrowStep(lo, c, x, l, i, y);
    }
  }

  /** r becomes x - l on the low 256 bits if take is 1, and x if take is 0. r may be x, and may
      hold l. */
  method SubtractIf(r: array<u32>, x: array<u32>, off: nat, l: seq<u32>, take: u32)
    requires r.Length >= 8 && x.Length >= off + 8 && |l| >= 8 && take <= 1
    requires r != x || off == 0
    modifies r
    ensures forall k :: 8 <= k < r.Length ==> r[k] == old(r[k])
    ensures Val(r[..], 8) == var v := Val(old(x[off..off + 8]), 8);
                             if take == 1 then (v - Val(l, 8)) % Pw(8) else v
  {
    ghost var x0, t := x[off..off + 8], take == 1;
    var carry: u64 := take;
    var mask: u32 := if take == 1 then BASE - 1 else 0;
    BorrowStart(x0, l);
    assert Val(r[..], 0) == 0 && Taken(t, 0, carry, x0, l, 0);
    hide *;
    for i := 0 to 8
      invariant forall k :: 8 <= k < r.Length ==> r[k] == old(r[k])
      invariant forall k :: i <= k < 8 ==> x[off + k] == x0[k]
      invariant carry <= 1 && Taken(t, Val(r[..], i), carry, x0, l, i)
    {
      ghost var before, c: nat := r[..], carry;
      carry := carry + x[off + i] + (if mask == 0 then 0 else BASE - 1 - l[i]);
      ghost var y: nat := carry;
      r[i] := carry % BASE;
      carry := carry / BASE;
      TakenStep(t, Val(before, i), c, x0, l, i, y, before, r[..]);
    }
    TakenDone(t, Val(r[..], 8), carry, x0, l);
  }

  lemma TakenDone(take: bool, lo: nat, c: nat, x: seq<u32>, l: seq<u32>)
    requires |x| >= 8 && |l| >= 8 && Taken(take, lo, c, x, l, 8)
    ensures lo == if take then (Val(x, 8) - Val(l, 8)) % Pw(8) else Val(x, 8)
  {
    if take {
      BorrowDone(lo, c, x, l);
    }
  }

  /** Subtracts the group order once if that leaves a natural. r may be x itself. */
  method RemoveL(r: array<u32>, x: array<u32>, off: nat)
    requires r.Length >= 8 && x.Length >= off + 8
    requires r != x || off == 0
    modifies r
    ensures forall k :: 8 <= k < r.Length ==> r[k] == old(r[k])
    ensures var v := Val(old(x[off..off + 8]), 8);
            Val(r[..], 8) == if v >= Ell() then v - Ell() else v
  {
    ghost var v := Val(x[off..off + 8], 8);
    ValBound(x[off..off + 8], 8);
    LValue();
    var above := IsAbove(x[off..off + 8], L());
    hide *;
    SubtractIf(r, x, off, L(), above);
  }

  /** With r * ell = w - e, the quotient estimated by r is at most one too small. */
  lemma Barrett(x: nat, q: nat, f: nat, r: nat, e: nat, ell: nat, w: nat)
    requires r * ell + e == w && e < ell
    requires x < w && r * x == f + w * q && f < w
    ensures 0 <= x - q * ell < 2 * ell
  {
    hide *;
    var t := x * e + ell * f;
    Expand(x, q, f, r, e, ell, w);
    MulSub(w, x, q * ell);
    MulBound(x, e, x, e);
    MulBound(ell, f, ell, f);
    Strict(x, e, ell, f, w);
    Between(w, x - q * ell, 2 * ell, t);
  }

  lemma Between(w: nat, d: int, m: nat, t: nat)
    requires d * w == t < w * m
    ensures 0 <= d < m
  {
    if d < 0 {
      MulLe(w, d, -1);
    } else if d >= m {
      MulLe(w, m, d);
    }
  }

  lemma Expand(x: int, q: int, f: int, r: int, e: int, ell: int, w: int)
    requires r * ell + e == w && r * x == f + w * q
    ensures w * x - w * (q * ell) == x * e + ell * f
  {
  }

  lemma Strict(x: nat, e: nat, ell: nat, f: nat, w: nat)
    requires x < w && e < ell && f < w
    ensures x * e + ell * f < w * (2 * ell)
  {
  }

  /** The low eight of nine words are the number modulo 2^256. */
  lemma LowOfNine(s: seq<u32>)
    requires |s| == 9
    ensures Val(s, 9) % Pw(8) == Val(s[..8], 8)
  {
    ValBound(s, 8);
    ValAgree(s, s[..8], 8);
    assert Val(s, 9) == Val(s, 8) + s[8] * Pw(8);
    DivModUnique(Val(s, 9), s[8], Val(s, 8), Pw(8));
  }

  /** Word 16 on of the product with the reciprocal is the quotient; its low words suffice. */
  lemma Quotient(x: seq<u32>, xr: seq<u32>) returns (q: nat)
    requires |x| == 16 && |xr| == 25 && Val(xr, 25) == Val(Reciprocal(), 9) * Val(x, 16)
    ensures 0 <= Val(x, 16) - q * Ell() < 2 * Ell()
    ensures q % Pw(8) == Val(xr[16..24], 8)
  {
    hide *;
    q := Val(xr[16..], 9);
    LowOfNine(xr[16..]);
    assert xr[16..][..8] == xr[16..24];
    PwAdd(8, 8);
    var e := ReciprocalValue();
    ValShift(xr, 16, 9);
    ValBound(x, 16);
    ValBound(xr, 16);
    Barrett(Val(x, 16), q, Val(xr, 16), Val(Reciprocal(), 9), e, Ell(), Pw(16));
  }

  /** Multiplication and subtraction modulo w lose nothing, because the result is small. */
  lemma Remainder(w: nat, ell: nat, x: nat, xl: nat, q: nat, ql: nat, p: nat, d: nat)
    requires 0 < ell && 2 * ell < w && 0 <= x - q * ell < 2 * ell
    requires xl == x % w && ql == q % w
    requires p == (ql * ell) % w && d == (xl - p) % w
    ensures d == x - q * ell
  {
    hide *;
    CongMod(x, w);
    CongMod(q, w);
    CongMod(ql * ell, w);
    CongMod(xl - p, w);
    assert Cong(ell, ell, w) by { CongIntro(ell, ell, 0, w); }
    CongMul(ql, q, ell, ell, w);
    assert Cong(p, q * ell, w) by { CongTrans(p, ql * ell, q * ell, w); }
    CongAdd(xl, x, p, q * ell, w);
    CongTrans(d, xl - p, x - q * ell, w);
    CongSmall(d, x - q * ell, w);
  }

  /** One conditional subtraction completes the reduction. */
  lemma Reduced(x: nat, q: nat, d: nat, ell: nat)
    requires 0 < ell && d == x - q * ell && d < 2 * ell
    ensures x % ell == if d >= ell then d - ell else d
  {
    if d >= ell {
      DivModUnique(x, q + 1, d - ell, ell);
    } else {
      DivModUnique(x, q, d, ell);
    }
  }

  lemma LowWords(x: seq<u32>)
    requires |x| == 16
    ensures Val(x, 8) == Val(x, 16) % Pw(8) && Val(x[0..8], 8) == Val(x, 8)
  {
    ValShift(x, 8, 8);
    ValBound(x, 8);
    DivModUnique(Val(x, 16), Val(x[8..], 8), Val(x, 8), Pw(8));
    ValAgree(x[0..8], x, 8);
  }

  /** Reduces a 512-bit number modulo the group order. */
  method ModL(reduced: array<u8>, x: array<u32>)
    requires x.Length == 16 && reduced.Length == 32
    modifies reduced
    ensures Num(reduced[..], 32) == Val(x[..], 16) % Ell()
  {
    hide *;
    ghost var n, x0 := Val(x[..], 16), x[..];
    var xr := new u32[25](_ => 0);
    ValZero(xr[..], 16);
    Multiply(xr, Reciprocal(), x[..]);
    ghost var q := Quotient(x0, xr[..]);
    ghost var hi := xr[16..24];
    for i := 0 to 8
      invariant forall k :: 0 <= k < i ==> xr[k] == 0
      invariant xr[16..24] == hi
    {
      xr[i] := 0;
    }
    MultiplyLow(xr, xr[16..24], L());
    ghost var p := Val(xr[..], 8);
    LValue();
    ValAgree(xr[..], xr[..8], 8);
    SubtractIf(xr, x, 0, xr[..8], 1);
    LowWords(x0);
    Remainder(Pw(8), Ell(), n, n % Pw(8), q, Val(hi, 8), p, Val(xr[..], 8));
    ValAgree(xr[..], xr[0..8], 8);
    ghost var d := Val(xr[..], 8);
    RemoveL(xr, xr, 0);
    Reduced(n, q, d, Ell());
    Store32Buf(reduced, xr[..], 8);
  }

  /** Reduces a 64-byte number modulo the group order. */
  method EddsaReduce(reduced: array<u8>, expanded: seq<u8>)
    requires reduced.Length == 32 && |expanded| == 64
    modifies reduced
    ensures Num(reduced[..], 32) == Num(expanded, 64) % Ell()
  {
    var w := Words(expanded, 16);
    var x := new u32[16](i requires 0 <= i < 16 => w[i]);
    NumIsVal(expanded, x[..], 16);
    ModL(reduced, x);
  }

  /** r = a * b + c modulo the group order. */
  method EddsaMulAdd(r: array<u8>, a: seq<u8>, b: seq<u8>, c: seq<u8>)
    requires r.Length == 32 && |a| == |b| == |c| == 32
    modifies r
    ensures Num(r[..], 32) == (Num(a, 32) * Num(b, 32) + Num(c, 32)) % Ell()
  {
    hide *;
    var wa, wb, wc := Words(a, 8), Words(b, 8), Words(c, 8);
    var p := new u32[16](i requires 0 <= i < 16 => if i < 8 then wc[i] else 0);
    NumIsVal(a, wa, 8);
    NumIsVal(b, wb, 8);
    NumIsVal(c, p[..], 8);
    Multiply(p, wa, wb);
    ModL(r, p);
  }

  /** s and words of it: adding a small multiple of the group order, with the carry kept apart. */
  ghost predicate Added(v: nat, c: nat, s: seq<u32>, l: seq<u32>, m: nat, i: nat)
    requires i <= |s| && i <= |l|
  {
    v + Pw(i) * c == Val(s, i) + m * Val(l, i)
  }

  lemma AddedStart(t: seq<u8>, s: seq<u32>, l: seq<u32>, m: nat)
    ensures Added(Num(t, 4 * 0), 0, s, l, m, 0)
  {
  }

  lemma AddedStep(v: nat, c: nat, s: seq<u32>, l: seq<u32>, m: nat, i: nat, y: nat)
    requires i < |s| && i < |l| && Added(v, c, s, l, m, i)
    requires y == c + s[i] + m * l[i]
    ensures Added(v + Pw(i) * (y % 0x1_0000_0000), y / 0x1_0000_0000, s, l, m, i + 1)
  {
    hide *;
    AddedIs(v, c, s, l, m, i);
    NextSums(s, l, i);
    AddedColumn(Pw(i), Pw(i + 1), v, c, Val(s, i), Val(s, i + 1), m, Val(l, i), Val(l, i + 1), s[i], l[i], y);
    AddedIntro(v + Pw(i) * (y % 0x1_0000_0000), y / 0x1_0000_0000, s, l, m, i + 1);
  }

  lemma AddedIs(v: nat, c: nat, s: seq<u32>, l: seq<u32>, m: nat, i: nat)
    requires i <= |s| && i <= |l| && Added(v, c, s, l, m, i)
    ensures v + Pw(i) * c == Val(s, i) + m * Val(l, i)
  {
  }

  lemma AddedIntro(v: nat, c: nat, s: seq<u32>, l: seq<u32>, m: nat, i: nat)
    requires i <= |s| && i <= |l| && v + Pw(i) * c == Val(s, i) + m * Val(l, i)
    ensures Added(v, c, s, l, m, i)
  {
  }

  lemma NextSums(s: seq<u32>, l: seq<u32>, i: nat)
    requires i < |s| && i < |l|
    ensures Val(s, i + 1) == Val(s, i) + Pw(i) * s[i] && Val(l, i + 1) == Val(l, i) + Pw(i) * l[i] && Pw(i + 1) == 0x1_0000_0000 * Pw(i)
  {
  }

  lemma AddedColumn(w: nat, w': nat, v: nat, c: nat, vs: nat, vs': nat, m: nat, vl: nat, vl': nat, s: nat, l: nat, y: nat)
    requires v + w * c == vs + m * vl && y == c + s + m * l
    requires w' == 0x1_0000_0000 * w && vs' == vs + w * s && vl' == vl + w * l
    ensures (v + w * (y % 0x1_0000_0000)) + w' * (y / 0x1_0000_0000) == vs' + m * vl'
  {
    var q, r := y / 0x1_0000_0000, y % 0x1_0000_0000;
    assert y == 0x1_0000_0000 * q + r;
    Regrouped(w, q, r, c, s, l, m, vl);
  }

  lemma Regrouped(w: nat, q: int, r: int, c: nat, s: nat, l: nat, m: nat, vl: nat)
    requires 0x1_0000_0000 * q + r == c + s + m * l
    ensures w * r + (0x1_0000_0000 * w) * q == w * c + w * s + m * (w * l) && m * (vl + w * l) == m * vl + m * (w * l)
  {
    calc {
      w * r + (0x1_0000_0000 * w) * q;
      w * (0x1_0000_0000 * q + r);
      w * (c + s + m * l);
      w * c + w * s + w * (m * l);
    }
  }

  lemma AddedDone(v: nat, c: nat, s: seq<u32>, l: seq<u32>, m: nat)
    requires |s| == 8 && |l| == 8 && v < Pw(8) && Added(v, c, s, l, m, 8)
    ensures v == (Val(s, 8) + m * Val(l, 8)) % Pw(8)
  {
    var x := Val(s, 8) + m * Val(l, 8);
    assert x == c * Pw(8) + v;
    hide *;
    DivModUnique(x, c, v, Pw(8));
  }

  /** s + (x mod 8) * L, on 256 bits. */
  method AddXl(s: array<u8>, x: u8)
    requires s.Length == 32
    modifies s
    ensures Num(s[..], 32) == (Num(old(s[..]), 32) + (x % 8) * Ell()) % Pw8(32)
  {
    hide *;
    ghost var w0 := Words(s[..], 8);
    NumIsVal(s[..], w0, 8);
    var mod8: u64 := x % 8;
    var carry: u64 := 0;
    AddedStart(s[..], w0, L(), mod8);
    PwPw8(8);
    LValue();
    for i := 0 to 8
      invariant forall k :: i <= k < 8 ==> Load32(s[..], 4 * k) == w0[k]
      invariant carry < 8 && Added(Num(s[..], 4 * i), carry, w0, L(), mod8, i)
    {
      ghost var before, c: nat := s[..], carry;
      var l := L()[i];
      MulBound(mod8, l, 7, 0xFFFF_FFFF);
      carry := carry + Load32(s[..], 4 * i) + mod8 * l;
      ghost var y: nat := carry;
      Store32(s, 4 * i, carry % 0x1_0000_0000);
      carry := carry / 0x1_0000_0000;
      AddedStep(Num(before, 4 * i), c, w0, L(), mod8, i, y);
      StoreNum(before, s[..], i);
      StoreKeeps(before, s[..], i, w0);
    }
    NumBound(s[..], 32);
    AddedDone(Num(s[..], 32), carry, w0, L(), mod8);
  }
}
