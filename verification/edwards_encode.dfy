/** Inversion in the field, and the encoding of points. */
module EdwardsEncode {
  import opened Arith
  import opened Bits
  import opened Limbs
  import opened Bytes
  import opened ScalarBits
  import opened Field25519
  import opened FieldEncode
  import opened FieldOps
  import opened FieldInvSqrt
  import opened Edwards
  import opened EdwardsDecode

  /** Euler's criterion for the square of z, which holds for every z outside the multiples of a prime. */
  ghost predicate SquareOfUnit(z: int) {
    Cong(Quartic(Prod(z, z)), 1, P()) || Cong(Quartic(Prod(z, z)), -1, P())
  }

  /** What primality says of z: its square is no multiple of P, and meets Euler's criterion. */
  ghost predicate UnitSquared(z: int) {
    !Cong(z, 0, P()) && SquareOfUnit(z) && !Cong(Prod(z, z), 0, P())
  }

  /** out = 1 / x, from the inverse root of x^2. out may be x. */
  method FeInvert(out: array<i32>, x: array<i32>)
    requires out.Length == x.Length == 10 && Grown(x[..], 1)
    modifies out
    ensures Grown(out[..], 1)
    ensures UnitSquared(FeVal(old(x[..]))) ==> Cong(Prod(FeVal(out[..]), FeVal(old(x[..]))), 1, P())
  {
    hide *;
    ghost var v := FeVal(x[..]);
    var tmp := new i32[10](_ => 0);
    Sq(tmp, x, 1);
    ghost var v2 := FeVal(tmp[..]);
    OneIsTight(tmp[..]);
    var ok := InvSqrt(tmp, tmp);
    OneIsTight(tmp[..]);
    ghost var r := FeVal(tmp[..]);
    Sq(tmp, tmp, 1);
    ghost var r2 := FeVal(tmp[..]);
    Mul(out, tmp, x, 1, 1);
    UnitSquare(v);
    if UnitSquared(v) {
      QuarticCong(v2, Prod(v, v));
      RootIs(r, v2);
      InverseChain(v, v2, r, r2, FeVal(out[..]), P());
    }
  }

  lemma UnitSquare(z: int)
    ensures UnitSquared(z) ==>
      (Cong(Quartic(Prod(z, z)), 1, P()) || Cong(Quartic(Prod(z, z)), -1, P())) && !Cong(Prod(z, z), 0, P())
  {
  }

  lemma InverseChain(v: int, v2: int, r: int, r2: int, w: int, m: int)
    requires 0 < m && Cong(v2, Prod(v, v), m) && Cong(r2, Prod(r, r), m) && Cong(w, Prod(r2, v), m)
    requires RootModulo(r, v2, m)
    ensures Cong(Prod(w, v), 1, m)
  {
    assert Cong(r * r * v2, 1, m);
    hide RootModulo, Cong;
    CongRefl(v, m);
    CongMul(w, r2 * v, v, v, m);
    CongMul(r2, r * r, v2, v * v, m);
    CongRefl(r * r, m);
    CongMul(r * r, r * r, v2, v * v, m);
    CongRefl(r * r * v2, m);
    CongTrans(r * r * v2, r * r * (v * v), r * r * (v * v), m) by { CongRefl(r * r * (v * v), m); }
    CongMul(r2, r * r, v, v, m);
    CongMul(r2 * v, r * r * v, v, v, m);
    assert r * r * v * v == r * r * (v * v);
    CongTrans(w * v, r2 * v * v, r * r * (v * v), m);
    CongTrans(w * v, r * r * (v * v), r * r * v2, m);
    CongTrans(w * v, r * r * v2, 1, m);
  }

  /** The encoding of a point: its affine y, and the parity of its affine x in the top bit. */
  method GeToBytes(s: array<u8>, h: Ge) returns (ghost x: int, ghost y: int, ghost w: int)
    requires s.Length == 32 && h.Shape() && h.Tidy()
    modifies s
    ensures Cong(x, Prod(h.Value().x, w), P()) && Cong(y, Prod(h.Value().y, w), P())
    ensures Num(s[..], 32) == y % P() + Pow2(255) * ((x % P()) % 2)
    ensures UnitSquared(h.Value().z) ==>
      && Cong(Prod(w, h.Value().z), 1, P())
      && Cong(x * h.Value().z, h.Value().x, P()) && Cong(y * h.Value().z, h.Value().y, P())
  {
    hide Grown, FeVal, Cong, UnitSquared, Num, Pow2, P, Prod, Tight;
    var recip := new i32[10](_ => 0);
    var fx := new i32[10](_ => 0);
    var fy := new i32[10](_ => 0);
    FeInvert(recip, h.Z);
    Mul(fx, h.X, recip, 1, 1);
    Mul(fy, h.Y, recip, 1, 1);
    OneIsTight(fx[..]);
    OneIsTight(fy[..]);
    x, y := FeVal(fx[..]), FeVal(fy[..]);
    w := FeVal(recip[..]);
    if UnitSquared(h.Value().z) {
      Affine(x, h.Value().x, FeVal(recip[..]), h.Value().z, P());
      Affine(y, h.Value().y, FeVal(recip[..]), h.Value().z, P());
    }
    FeToBytes(s, fy[..]);
    var odd := FeIsOdd(fx);
    ghost var before := s[..];
    TopBitFree(before, y);
    s[31] := if odd == 1 then (s[31] + 0x80) % 0x100 else s[31];
    TopBitSet(before, s[..], odd, y);
  }

  lemma Affine(x: int, hx: int, r: int, z: int, m: int)
    requires 0 < m && Cong(x, Prod(hx, r), m) && Cong(Prod(r, z), 1, m)
    ensures Cong(x * z, hx, m)
  {
    hide Cong;
    CongRefl(z, m);
    CongRefl(hx, m);
    CongMul(x, hx * r, z, z, m);
    CongMul(hx, hx, r * z, 1, m);
    assert hx * r * z == hx * (r * z);
    CongTrans(x * z, hx * (r * z), hx, m);
  }

  lemma TopBitFree(s: seq<u8>, y: int)
    requires |s| == 32 && Num(s, 32) == y % P()
    ensures s[31] < 0x80
  {
    TopWeight255();
    assert y % P() < P();
    var n := Num(s, 31);
    var w := Pw8(31);
    assert Num(s, 32) == n + w * s[31];
    hide *;
    TopByte(n, w, s[31], y % P());
  }

  lemma TopWeight255()
    ensures Pw8(31) * 0x80 == Pow2(255) && P() < Pow2(255)
  {
    hide *;
    PrimeBits();
    Pw8IsPow2(31);
    Pow2Values();
    Pow2Add(248, 7);
  }

  lemma TopByte(n: nat, w: nat, b: nat, y: nat)
    requires y == n + w * b && y < w * 0x80
    ensures b < 0x80
  {
  }

  lemma TopBitSet(s: seq<u8>, s': seq<u8>, odd: int, y: int)
    requires |s| == |s'| == 32 && s' == s[31 := s'[31]] && 0 <= odd <= 1 && s[31] < 0x80
    requires s'[31] == s[31] + 0x80 * odd
    ensures Num(s', 32) == Num(s, 32) + Pow2(255) * odd
  {
    hide *;
    TopWeight255();
    NumAgree(s, s', 31);
    NumTop(s);
    NumTop(s');
    TopAlgebra(Pw8(31), s[31], odd, Pow2(255));
  }

  lemma NumTop(s: seq<u8>)
    requires |s| == 32
    ensures Num(s, 32) == Num(s, 31) + Pw8(31) * s[31]
  {
  }

  lemma TopAlgebra(w: int, b: int, odd: int, t: int)
    requires t == w * 0x80
    ensures w * (b + 0x80 * odd) == w * b + t * odd
  {
  }
}
