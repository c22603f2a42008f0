/** Montgomery reduction modulo the group order, and the inversion of a private scalar with it. */
module Montgomery {
  import opened Arith
  import opened Bits
  import opened Limbs
  import opened Bytes
  import opened ScalarBits
  import opened ScalarModL

  /** The words of the constant k of the reduction. */
  function K(): (k: seq<u32>)
    ensures |k| == 8
  {
    [0x12547e1b, 0xd2b51da3, 0xfdba84ff, 0xb1a206f2, 0xffa36bea, 0x14e75438, 0x6fe91836, 0x9db6c6f2]
  }

  /** 1 in Montgomery form: 2^256 modulo the group order. */
  function One(): (o: seq<u32>)
    ensures |o| == 8
  {
    [0x8d98951d, 0xd6ec3174, 0x737dcf70, 0xc6ef5bf4, 0xfffffffe, 0xffffffff, 0xffffffff, 0x0fffffff]
  }

  /** The inverse of 2^256 modulo the group order. */
  function WeightInverse(): nat {
    0x9db6c6f26fe9183614e75438ffa36beb7f5c66a973f754cc766cca43d5f0d24
  }

  /** k is minus the inverse of the group order modulo 2^256. */
  lemma KValue() returns (c: nat)
    ensures Val(K(), 8) * Ell() + 1 == c * Pw(8)
  {
    Weights();
    Val8(K());
    c := (Val(K(), 8) * Ell() + 1) / Pw(8);
  }

  lemma OneValue()
    ensures Val(One(), 8) == Pw(8) % Ell()
  {
    Weights();
    Val8(One());
  }

  lemma WeightInverseValue()
    ensures (Pw(8) * WeightInverse()) % Ell() == 1
  {
    Weights();
  }

  /** The multiple of ell added to x clears the low words. */
  lemma Clears(x: nat, xl: nat, k: nat, s: nat, ell: nat, c: nat, w: nat)
    requires 0 < w && xl == x % w && s == (xl * k) % w && k * ell + 1 == c * w
    ensures (x + s * ell) % w == 0
  {
    hide *;
    CongMod(x, w);
    CongMod(xl * k, w);
    CongIntro(k, k, 0, w);
    CongIntro(ell, ell, 0, w);
    CongIntro(x, x, 0, w);
    CongMul(xl, x, k, k, w);
    CongTrans(s, xl * k, x * k, w);
    CongMul(s, x * k, ell, ell, w);
    CongAdd(x, x, s * ell, x * k * ell, w);
    assert x + x * k * ell == 0 + (x * c) * w by {
      Factor(x, k, ell, c, w);
    }
    CongIntro(x + x * k * ell, 0, x * c, w);
    CongTrans(x + s * ell, x + x * k * ell, 0, w);
    Zero(x + s * ell, w);
  }

  lemma Factor(x: int, k: int, ell: int, c: int, w: int)
    requires k * ell + 1 == c * w
    ensures x + x * k * ell == (x * c) * w
  {
  }

  lemma Zero(x: int, w: int)
    requires 0 < w && Cong(x, 0, w)
    ensures x % w == 0
  {
  }

  /** Adds x to t, word by word. */
  ghost predicate Summed(v: nat, c: nat, t: seq<u32>, x: seq<u32>, i: nat)
    requires i <= |t| && i <= |x|
  {
    c <= 1 && v + Pw(i) * c == Val(t, i) + Val(x, i)
  }

  lemma SummedStep(t: seq<u32>, r: seq<u32>, r': seq<u32>, c: nat, x: seq<u32>, i: nat, y: nat)
    requires i < |t| == |r| == |r'| && i < |x| && Summed(Val(r, i), c, t, x, i)
    requires y == c + t[i] + x[i] && r' == r[i := y % BASE]
    ensures Summed(Val(r', i + 1), y / BASE, t, x, i + 1)
  {
    var w := Pw(i);
    ValStore(r, r', i);
    MulDistr(w, y % BASE, BASE * (y / BASE));
    MulAssoc(w, BASE, y / BASE);
    MulDistr(w, c, t[i] as int + x[i] as int);
    MulDistr(w, t[i], x[i]);
  }

  method AddWords(t: array<u32>, x: seq<u32>) returns (carry: u64)
    requires t.Length == |x|
    modifies t
    ensures Val(t[..], |x|) + Pw(|x|) * carry == Val(old(t[..]), |x|) + Val(x, |x|)
  {
    ghost var t0 := t[..];
    carry := 0;
    assert Summed(0, 0, t0, x, 0) && Val(t0, 0) == 0;
    {
      hide *;
      for i := 0 to |x|
        invariant forall k :: i <= k < |x| ==> t[k] == t0[k]
        invariant carry <= 1 && Summed(Val(t[..], i), carry, t0, x, i)
      {
        ghost var r, c: nat := t[..], carry;
        carry := carry + t[i] + x[i];
        ghost var y: nat := carry;
        t[i] := carry % BASE;
        carry := carry / BASE;
        SummedStep(t0, r, t[..], c, x, i, y);
      }
    }
  }

  /** The sum with its low half cleared fits 512 bits, and its high half is below 2 * ell. */
  lemma HighHalf(t: seq<u32>, carry: nat, sv: nat, x: nat, ell: nat) returns (h: nat)
    requires |t| == 16
    requires sv < Pw(8) && x < ell * Pw(8) && 2 * ell < Pw(8)
    requires Val(t, 16) + Pw(16) * carry == sv * ell + x && (x + sv * ell) % Pw(8) == 0
    ensures h == Val(t[8..], 8) && h < 2 * ell && h * Pw(8) == x + sv * ell
  {
    hide *;
    h := Val(t[8..], 8);
    ValShift(t, 8, 8);
    ValBound(t, 8);
    PwAdd(8, 8);
    HighHalfSum(Val(t, 8), h, carry, sv, x, ell, Pw(8));
  }

  lemma HighHalfSum(lo: nat, h: nat, carry: nat, sv: nat, x: nat, ell: nat, w: nat)
    requires lo < w && sv < w && x < ell * w && 2 * ell < w
    requires lo + w * h + (w * w) * carry == sv * ell + x && (x + sv * ell) % w == 0
    ensures h < 2 * ell && h * w == x + sv * ell
  {
    var q := h + w * carry;
    HighQuotient(lo, h, carry, w);
    DivModUnique(x + sv * ell, q, lo, w);
    hide *;
    QuotientBound(q, w, ell, x, sv);
    if carry >= 1 {
      MulLe(w, 1, carry);
    }
  }

  lemma HighQuotient(lo: nat, h: nat, carry: nat, w: nat)
    ensures lo + w * h + (w * w) * carry == (h + w * carry) * w + lo
  {
  }

  lemma QuotientBound(q: nat, w: nat, ell: nat, x: nat, sv: nat)
    requires q * w == x + sv * ell && x < ell * w && sv < w
    ensures q < 2 * ell
  {
  }

  /** Divides x by 2^256 modulo the group order. */
  method Redc(u: array<u32>, x: seq<u32>)
    requires u.Length == 8 && |x| == 16 && Val(x, 16) < Ell() * Pw(8)
    modifies u
    ensures Val(u[..], 8) < Ell()
    ensures Cong(Val(u[..], 8) * Pw(8), Val(x, 16), Ell())
  {
    hide *;
    var s := new u32[8](_ => 0);
    MultiplyLow(s, x[..8], K());
    ghost var sv := Val(s[..], 8);
    var t := new u32[16](_ => 0);
    ValZero(t[..], 8);
    Multiply(t, s[..], L());
    LValue();
    var carry := AddWords(t, x);
    ValBound(s[..], 8);
    ghost var h := Shifted256(x, sv, t[..], carry);
    assert t[8..16] == t[..][8..];
    RemoveL(u, t, 8);
    Divided(Val(u[..], 8), h, sv, Val(x, 16), Ell(), Pw(8));
  }

  /** The high half of x + s * L is the exact quotient by 2^256. */
  lemma Shifted256(x: seq<u32>, sv: nat, t: seq<u32>, carry: nat) returns (h: nat)
    requires |x| == |t| == 16 && Val(x, 16) < Ell() * Pw(8)
    requires sv < Pw(8) && sv == (Val(x[..8], 8) * Val(K(), 8)) % Pw(8)
    requires Val(t, 16) + Pw(16) * carry == sv * Ell() + Val(x, 16)
    ensures h == Val(t[8..], 8) && h < 2 * Ell() && h * Pw(8) == Val(x, 16) + sv * Ell()
  {
    hide *;
    LValue();
    var c := KValue();
    LowHalf(x);
    Clears(Val(x, 16), Val(x[..8], 8), Val(K(), 8), sv, Ell(), c, Pw(8));
    h := HighHalf(t, carry, sv, Val(x, 16), Ell());
  }

  lemma LowHalf(x: seq<u32>)
    requires |x| == 16
    ensures Val(x[..8], 8) == Val(x, 16) % Pw(8)
  {
    LowWords(x);
    ValAgree(x[..8], x, 8);
  }

  lemma Divided(u: nat, h: nat, s: nat, x: nat, ell: nat, w: nat)
    requires 0 < ell && h < 2 * ell && h * w == x + s * ell
    requires u == if h >= ell then h - ell else h
    ensures u < ell && Cong(u * w, x, ell)
  {
    if h >= ell {
      MulSub(w, h, ell);
      MulSub(ell, s, w);
      CongIntro(u * w, x, s - w, ell);
    } else {
      CongIntro(u * w, x, s, ell);
    }
  }

  /** v is x in Montgomery form. */
  ghost predicate Mont(v: nat, x: int) {
    Cong(v, Pw(8) * x, Ell())
  }

  /** Multiplying two Montgomery forms and reducing gives the form of the product. */
  lemma MontProduct(u: nat, a: nat, b: nat, x: int, y: int)
    requires Cong(u * Pw(8), a * b, Ell()) && Mont(a, x) && Mont(b, y)
    ensures Mont(u, x * y)
  {
    var w, ell := Pw(8), Ell();
    hide *;
    CongMul(a, w * x, b, w * y, ell);
    CongTrans(u * w, a * b, (w * x) * (w * y), ell);
    assert (w * x) * (w * y) == (w * (x * y)) * w by { Twice(w, x, y); }
    Cancel(u, w * (x * y));
  }

  lemma Twice(w: int, x: int, y: int)
    ensures (w * x) * (w * y) == (w * (x * y)) * w
  {
  }

  /** 2^256 is invertible modulo the group order. */
  lemma Cancel(u: int, v: int)
    requires Cong(u * Pw(8), v * Pw(8), Ell())
    ensures Cong(u, v, Ell())
  {
    var w, wi, ell := Pw(8), WeightInverse(), Ell();
    WeightInverseValue();
    Weights();
    assert Cong(w * wi, 1, ell) by { assert Ell() > 1; DivModUnique(1, 0, 1, Ell()); }
    hide *;
    CongIntro(wi, wi, 0, ell);
    CongMul(u * w, v * w, wi, wi, ell);
    CongIntro(u, u, 0, ell);
    CongIntro(v, v, 0, ell);
    CongMul(u, u, w * wi, 1, ell);
    CongMul(v, v, w * wi, 1, ell);
    MulAssoc(u, w, wi);
    MulAssoc(v, w, wi);
    CongTrans(u * (w * wi), v * (w * wi), v, ell);
    CongTrans(u * (w * wi), u, u, ell);
    CongTrans(u, u * (w * wi), v, ell);
  }

  /** The group order minus two, the exponent of the inversion. */
  function Lm2(): (e: seq<u8>)
    ensures |e| == 32
  {
    [0xeb, 0xd3, 0xf5, 0x5c, 0x1a, 0x63, 0x12, 0x58, 0xd6, 0x9c, 0xf7, 0xa2, 0xde, 0xf9, 0xde, 0x14,
     0, 0, 0, 0, 0, 0, 0, 0, 0, 0, 0, 0, 0, 0, 0, 0x10]
  }

  lemma Lm2Value()
    ensures Num(Lm2(), 32) == Ell() - 2
  {
    hide *;
    var w := [0x5cf5d3eb, 0x5812631a, 0xa2f79cd6, 0x14def9de, 0, 0, 0, 0x10000000];
    Lm2Words(w);
    NumIsVal(Lm2(), w, 8);
    Lm2Limbs(w);
  }

  lemma Lm2Limbs(w: seq<u32>)
    requires w == [0x5cf5d3eb, 0x5812631a, 0xa2f79cd6, 0x14def9de, 0, 0, 0, 0x10000000]
    ensures Val(w, 8) == Ell() - 2
  {
    Weights();
    Val8(w);
    hide Pw, Val;
  }

  lemma Lm2Words(w: seq<u32>)
    requires w == [0x5cf5d3eb, 0x5812631a, 0xa2f79cd6, 0x14def9de, 0, 0, 0, 0x10000000]
    ensures forall i :: 0 <= i < 8 ==> w[i] == Load32(Lm2(), 4 * i)
  {
    LowLm2();
    HighLm2();
    hide Lm2, Load32;
  }

  lemma LowLm2()
    ensures Load32(Lm2(), 0) == 0x5cf5d3eb && Load32(Lm2(), 4) == 0x5812631a
    ensures Load32(Lm2(), 8) == 0xa2f79cd6 && Load32(Lm2(), 12) == 0x14def9de
  {
  }

  lemma HighLm2()
    ensures Load32(Lm2(), 16) == Load32(Lm2(), 20) == Load32(Lm2(), 24) == 0 && Load32(Lm2(), 28) == 0x10000000
  {
  }

  /** A private key with the clamped bits of a scalar forced. */
  function TrimScalar(key: seq<u8>): (s: seq<u8>)
    requires |key| == 32
    ensures |s| == 32
  {
    key[0 := key[0] - key[0] % 8][31 := key[31] % 64 + 64]
  }

  /** The number of a trimmed key: a multiple of 8 with its highest bit at position 254, and in between the bits of the key. */
  lemma TrimmedNumber(key: seq<u8>)
    requires |key| == 32
    ensures var n := Num(TrimScalar(key), 32);
      n % 8 == 0 && Pow2(254) <= n < Pow2(255) && n / 8 % Pow2(251) == Num(key, 32) / 8 % Pow2(251)
  {
    hide *;
    var t := TrimScalar(key);
    TrimBytes(key);
    Ends(key);
    Ends(t);
    NumAgree(key[1..], t[1..], 30);
    NumBound(key[1..], 30);
    Pw8IsPow2(30);
    Powers();
    Trimmed(key[0], Num(key[1..], 30), key[31], Pow2(240));
  }

  lemma TrimBytes(key: seq<u8>)
    requires |key| == 32
    ensures TrimScalar(key)[0] == key[0] / 8 * 8 && TrimScalar(key)[31] == key[31] % 64 + 64
    ensures TrimScalar(key)[1..][..30] == key[1..][..30]
  {
  }

  lemma Ends(s: seq<u8>)
    requires |s| == 32
    ensures Num(s, 32) == s[0] + 0x100 * Num(s[1..], 30) + Pow2(248) * s[31]
  {
    hide *;
    assert Pw8(1) == 0x100 && Num(s, 1) == s[0] by { OneByte(s); }
    NumShift(s, 1, 30);
    LastByte(s);
    Pw8IsPow2(31);
  }

  lemma OneByte(s: seq<u8>)
    requires s != []
    ensures Num(s, 1) == s[0] && Pw8(1) == 0x100
  {
  }

  lemma LastByte(s: seq<u8>)
    requires |s| == 32
    ensures Num(s, 32) == Num(s, 31) + Pw8(31) * s[31]
  {
  }

  lemma Powers()
    ensures Pow2(248) == 0x100 * Pow2(240) && Pow2(251) == 0x800 * Pow2(240)
    ensures Pow2(254) == 0x4000 * Pow2(240) && Pow2(255) == 0x8000 * Pow2(240)
  {
    Pow2Values();
    assert Pow2(11) == 0x800 && Pow2(14) == 0x4000 && Pow2(15) == 0x8000;
    hide Pow2;
    Pow2Add(8, 240);
    Pow2Add(11, 240);
    Pow2Add(14, 240);
    Pow2Add(15, 240);
  }

  /** Clearing the low three bits and forcing the top two, on the first byte a, the middle m and the last byte b. */
  lemma Trimmed(a: u8, m: nat, b: u8, w: nat)
    requires m < w
    ensures var n, k := a / 8 * 8 + 0x100 * m + 0x100 * w * (b % 64 + 64), a + 0x100 * m + 0x100 * w * b;
      n % 8 == 0 && 0x4000 * w <= n < 0x8000 * w && n / 8 % (0x800 * w) == k / 8 % (0x800 * w)
  {
    var n, k := a / 8 * 8 + 0x100 * m + 0x100 * w * (b % 64 + 64), a + 0x100 * m + 0x100 * w * b;
    var c, d := b % 64, b / 64;
    var r := a / 8 + 32 * m + 32 * (w * c);
    TopByteIs(w, b, c, d);
    MulBound(w, c, w, 63);
    MulLe(w, c, 63);
    assert n == 8 * (r + 0x800 * w);
    assert k == 8 * (r + d * (0x800 * w)) + a % 8;
    hide *;
    DivModUnique(n, r + 0x800 * w, 0, 8);
    DivModUnique(k, r + d * (0x800 * w), a % 8, 8);
    DivModUnique(r + 0x800 * w, 1, r, 0x800 * w);
    DivModUnique(r + d * (0x800 * w), d, r, 0x800 * w);
  }

  lemma TopByteIs(w: nat, b: nat, c: nat, d: nat)
    requires c == b % 64 && d == b / 64
    ensures 0x100 * w * b == 0x100 * (w * c) + 8 * (d * (0x800 * w)) && 0x100 * w * (c + 64) == 0x100 * (w * c) + 8 * (0x800 * w)
  {
    assert b == 64 * d + c;
    MulDistr(w, 64 * d, c);
  }

  /** The product a * b reduced: one multiplication in Montgomery form. */
  method MontMultiply(product: array<u32>, a: array<u32>, b: seq<u32>, ghost x: int, ghost y: int)
    requires product.Length == 16 && a.Length == 8 && |b| == 8
    requires Val(a[..], 8) < Ell() && Mont(Val(a[..], 8), x) && Mont(Val(b, 8), y)
    modifies product, a
    ensures Val(a[..], 8) < Ell() && Mont(Val(a[..], 8), x * y)
  {
    hide *;
    ghost var av, bv := Val(a[..], 8), Val(b, 8);
    for i := 0 to 16
      invariant forall k :: 0 <= k < i ==> product[k] == 0
      invariant a[..] == old(a[..])
    {
      product[i] := 0;
    }
    ValZero(product[..], 8);
    Multiply(product, a[..], b);
    ValBound(b, 8);
    Below(av, bv, Ell(), Pw(8));
    Redc(a, product[..]);
    MontProduct(Val(a[..], 8), av, bv, x, y);
  }

  lemma Below(a: nat, b: nat, m: nat, n: nat)
    requires a < m && b < n
    ensures a * b < m * n
  {
  }

  /** m_inv holds the power of s whose exponent is the part of the order minus two above bit i. */
  ghost predicate Prefix(v: nat, s: nat, i: nat) {
    v < Ell() && Mont(v, Pow(s, Shr(Ell() - 2, i)))
  }

  /** The group order fits 253 bits, with room for a factor of eight in 256. */
  lemma EllBits()
    ensures Ell() < Pow2(253) && 8 * Ell() < Pw(8) && Pw(8) == Pow2(256) && Ell() % 8 == 5
  {
    Weights();
    PwPw8(8);
    Pw8IsPow2(32);
    assert Pow2(3) == 8;
    Pow2Add(3, 253);
  }

  lemma PrefixStart(s: nat)
    ensures Prefix(Val(One(), 8), s, 253)
  {
    OneValue();
    EllBits();
    ShrAll(Ell() - 2, 253);
    assert Pow(s, 0) == 1;
    CongMod(Pw(8), Ell());
  }

  lemma ShrAll(e: nat, n: nat)
    requires e < Pow2(n)
    ensures Shr(e, n) == 0
  {
    DivModUnique(e, 0, e, Pow2(n));
  }

  /** A square, and a product if the bit of the exponent is set, move down one bit. */
  lemma PowNext(s: nat, m: nat, i: nat)
    ensures var q := Pow(s, Shr(m, i + 1));
            Pow(s, Shr(m, i)) == if Bit(m, i) == 1 then q * q * s else q * q
  {
    hide *;
    ShrNext(m, i);
    PowStep(s, Shr(m, i), Shr(m, i + 1), Bit(m, i));
  }

  lemma PowStep(s: nat, e: nat, e': nat, b: nat)
    requires e == 2 * e' + b && b <= 1
    ensures var q := Pow(s, e'); Pow(s, e) == if b == 1 then q * q * s else q * q
  {
    hide *;
    PowDouble(s, e');
  }

  lemma PrefixStep(v: nat, s: nat, i: nat, q: int, x: int)
    requires v < Ell() && Mont(v, x) && q == Pow(s, Shr(Ell() - 2, i + 1))
    requires x == if Bit(Ell() - 2, i) == 1 then q * q * s else q * q
    ensures Prefix(v, s, i)
  {
    assert x == Pow(s, Shr(Ell() - 2, i)) by {
      hide *;
      PowNext(s, Ell() - 2, i);
    }
  }

  lemma PowDouble(s: nat, e: nat)
    ensures Pow(s, 2 * e) == Pow(s, e) * Pow(s, e) && Pow(s, 2 * e + 1) == Pow(s, e) * Pow(s, e) * s
  {
    PowAdd(s, e, e);
    PowAdd(s, 2 * e, 1);
    assert Pow(s, 1) == s;
  }

  /** Square and multiply over the bits of the exponent, from the top. */
  method InvertMont(mInv: array<u32>, mScl: seq<u32>, product: array<u32>, ghost n: nat)
    requires mInv.Length == |mScl| == 8 && product.Length == 16
    requires mInv[..] == One() && Mont(Val(mScl, 8), n)
    modifies mInv, product
    ensures Val(mInv[..], 8) < Ell() && Mont(Val(mInv[..], 8), Pow(n, Ell() - 2))
  {
    hide *;
    PrefixStart(n);
    var lm2 := Lm2();
    Lm2Value();
    for i := 253 downto 0
      invariant Prefix(Val(mInv[..], 8), n, i)
    {
      ghost var q := PrefixPower(Val(mInv[..], 8), n, i + 1);
      MontMultiply(product, mInv, mInv[..], q, q);
      BitOfNum(lm2, i);
      if ScalarBit(lm2, i) == 1 {
        MontMultiply(product, mInv, mScl, q * q, n);
        PrefixStep(Val(mInv[..], 8), n, i, q, q * q * n);
      } else {
        PrefixStep(Val(mInv[..], 8), n, i, q, q * q);
      }
    }
    PrefixDone(Val(mInv[..], 8), n);
  }

  /** The scalar that undoes a trimmed private key: its inverse modulo the group order by
      exponentiation, moved to a multiple of the cofactor. */
  method InverseScalar(privateKey: seq<u8>) returns (scalar: array<u8>)
    requires |privateKey| == 32
    ensures scalar.Length == 32 && Num(scalar[..], 32) % 8 == 0
    ensures Num(scalar[..], 32) % Ell() == Pow(Num(TrimScalar(privateKey), 32), Ell() - 2) % Ell()
  {
    hide *;
    var trimmed := TrimScalar(privateKey);
    ghost var n := Num(trimmed, 32);
    scalar := new u8[32](_ => 0);
    var words := Words(trimmed, 8);
    var tmp := new u32[16](i requires 0 <= i < 16 => if i < 8 then 0 else words[i - 8]);
    Shifted(tmp[..], trimmed, words);
    ModL(scalar, tmp);
    var mScl := Words(scalar[..], 8);
    NumIsVal(scalar[..], mScl, 8);
    IntoMont(Val(mScl, 8), n);
    var one := One();
    var mInv := new u32[8](i requires 0 <= i < 8 => one[i]);
    assert mInv[..] == one;
    var product := new u32[16](_ => 0);
    InvertMont(mInv, mScl, product, n);
    ghost var v := Val(mInv[..], 8);
    var m := mInv[..];
    product := new u32[16](i requires 0 <= i < 16 => if i < 8 then m[i] else 0);
    ZeroHigh(product[..], m);
    MulLe(Ell(), 1, Pw(8));
    Redc(mInv, product[..]);
    FromMont(Val(mInv[..], 8), v, n);
    Store32Buf(scalar, mInv[..], 8);
    ghost var u := scalar[..];
    var x: u8 := (scalar[0] as int * 3) % 0x100;
    AddXl(scalar, x);
    ClearCofactor(u, x, Num(scalar[..], 32));
  }

  lemma PrefixDone(v: nat, s: nat)
    requires Prefix(v, s, 0)
    ensures v < Ell() && Mont(v, Pow(s, Ell() - 2))
  {
    ShrNone(Ell() - 2);
  }

  lemma ZeroHigh(p: seq<u32>, m: seq<u32>)
    requires |p| == 16 && |m| == 8
    requires forall k :: 0 <= k < 16 ==> p[k] == if k < 8 then m[k] else 0
    ensures Val(p, 16) == Val(m, 8)
  {
    hide *;
    ValShift(p, 8, 8);
    ValAgree(p, m, 8);
    ValZero(p[8..], 8);
  }

  lemma FromMont(u: nat, v: nat, s: nat)
    requires u < Ell() && Cong(u * Pw(8), v, Ell()) && Mont(v, Pow(s, Ell() - 2))
    ensures u == Pow(s, Ell() - 2) % Ell()
  {
    var x := Pow(s, Ell() - 2);
    assert Cong(v, x * Pw(8), Ell());
    hide *;
    CongTrans(u * Pw(8), v, x * Pw(8), Ell());
    Cancel(u, x);
    CongMod(x, Ell());
    CongTrans(u, x, x % Ell(), Ell());
    CongSmall(u, x % Ell(), Ell());
  }

  /** Adding 3 * u copies of an odd order, modulo 8, clears the low three bits of u. */
  lemma ClearCofactor(u: seq<u8>, x: u8, r: nat)
    requires |u| == 32 && Num(u, 32) < Ell() && x == (u[0] as int * 3) % 0x100
    requires r == (Num(u, 32) + (x % 8) * Ell()) % Pw8(32)
    ensures r % 8 == 0 && r % Ell() == Num(u, 32)
  {
    hide *;
    FirstByte(u);
    Times3(Num(u, 32), u[0], Num(u[1..], 31), x);
    EllBits();
    PwPw8(8);
    Cleared(Num(u, 32), x % 8, Ell(), Pw8(32), r);
  }

  lemma Cleared(n: nat, m: nat, ell: nat, w: nat, r: nat)
    requires n < ell && ell % 8 == 5 && 8 * ell < w
    requires m == (n * 3) % 8 && r == (n + m * ell) % w
    ensures r % 8 == 0 && r % ell == n
  {
    MulLe(ell, m, 7);
    assert m * ell == ell * m;
    DivModUnique(n + m * ell, 0, n + m * ell, w);
    DivModUnique(r, m, n, ell);
    EighthMultiple(n, m, ell);
  }

  lemma Times3(n: nat, b: nat, k: nat, x: nat)
    requires n == b + 0x100 * k && x == (b * 3) % 0x100
    ensures x % 8 == (n * 3) % 8
  {
    var q, r := (b * 3) / 8, (b * 3) % 8;
    var h := (b * 3) / 0x100;
    DivModUnique(n * 3, q + 0x60 * k, r, 8);
    DivModUnique(x, q - 0x20 * h, r, 8);
  }

  lemma EighthMultiple(n: nat, m: nat, ell: nat)
    requires m == (n * 3) % 8 && ell % 8 == 5
    ensures (n + m * ell) % 8 == 0
  {
    var k := ell / 8;
    assert ell == 8 * k + 5;
    assert m * ell == 8 * (m * k) + 5 * m;
    DivModUnique(n + m * ell, m * k + (n + 5 * m) / 8, 0, 8);
  }

  lemma PrefixPower(v: nat, s: nat, i: nat) returns (q: int)
    requires Prefix(v, s, i)
    ensures q == Pow(s, Shr(Ell() - 2, i)) && v < Ell() && Mont(v, q)
  {
    q := Pow(s, Shr(Ell() - 2, i));
  }

  lemma Shifted(tmp: seq<u32>, s: seq<u8>, w: seq<u32>)
    requires |tmp| == 16 && |s| == 32 && |w| == 8 && w == Words(s, 8)
    requires forall k :: 0 <= k < 8 ==> tmp[k] == 0 && tmp[8 + k] == w[k]
    ensures Val(tmp, 16) == Pw(8) * Num(s, 32)
  {
    hide *;
    ValShift(tmp, 8, 8);
    ValZero(tmp, 8);
    NumIsVal(s, w, 8);
    ValAgree(tmp[8..], w, 8);
  }

  lemma IntoMont(v: nat, n: nat)
    requires v == (Pw(8) * n) % Ell()
    ensures Mont(v, n)
  {
    CongMod(Pw(8) * n, Ell());
  }
}
