/** Decoding a public key or a commitment: the point whose y coordinate and sign a byte string
    holds, negated. */
module EdwardsDecode {
  import opened Arith
  import opened Bits
  import opened Limbs
  import opened Bytes
  import opened Field25519
  import opened FieldCodec
  import opened FieldOps
  import opened FieldInvSqrt
  import opened Edwards
  import opened EdwardsLaw

  /** The y coordinate in the low 255 bits, and the sign in the top one. */
  function EncodedY(s: seq<u8>): nat
    requires |s| == 32
  {
    Num(s, 32) % Pow2(255)
  }

  /** The denominator of x^2, for the curve constant d. */
  function Scale(d: int, y: int): int {
    Prod(d, Prod(y, y)) + 1
  }

  function Numerator(y: int): int {
    Prod(y, y) - 1
  }

  function Denominator(y: int): int {
    Scale(FeVal(D()), y)
  }

  /** The curve equation, with the square of x collected: num = den * x^2. */
  lemma CurveIff(p: Point, y: int, d: int, m: int)
    requires 0 < m && Cong(p.y, y, m) && p.z == 1 && Cong(p.t, Prod(p.x, p.y), m)
    ensures CurveEquation(p, d, m) <==> Cong(Numerator(y), Prod(Scale(d, y), Prod(p.x, p.x)), m)
  {
    CurveDifference(p, y, d, m);
    var a, b := p.y * p.y - p.x * p.x, p.z * p.z + d * (p.t * p.t);
    var v, w := Numerator(y), Prod(Scale(d, y), Prod(p.x, p.x));
    assert CurveEquation(p, d, m) <==> Cong(a, b, m);
    assert Cong(a - b, v - w, m);
    hide *;
    CongDifference(a, b, m);
    CongDifference(v, w, m);
    CongBoth(a - b, v - w, 0, m);
  }

  lemma CurveDifference(p: Point, y: int, d: int, m: nat)
    requires 0 < m && Cong(p.y, y, m) && p.z == 1 && Cong(p.t, Prod(p.x, p.y), m)
    ensures Cong((p.y * p.y - p.x * p.x) - (p.z * p.z + d * (p.t * p.t)),
                 (Prod(y, y) - 1) - Prod(Prod(d, Prod(y, y)) + 1, Prod(p.x, p.x)), m)
  {
    CongMul(p.y, y, p.y, y, m);
    CongRefl(p.x, m);
    CongMul(p.x, p.x, p.y, y, m);
    CongTrans(p.t, p.x * p.y, p.x * y, m);
    CongMul(p.t, p.x * y, p.t, p.x * y, m);
    CongRefl(d, m);
    CongMul(d, d, p.t * p.t, (p.x * y) * (p.x * y), m);
    Expanded(p.x, y, d);
    hide Cong;
    CongRefl(p.x * p.x, m);
    CongRefl(1, m);
    CongAdd(p.y * p.y, y * y, p.x * p.x, p.x * p.x, m);
    CongAdd(1, 1, d * (p.t * p.t), d * ((p.x * y) * (p.x * y)), m);
    CongAdd(p.y * p.y - p.x * p.x, y * y - p.x * p.x, 1 + d * (p.t * p.t), 1 + d * ((p.x * y) * (p.x * y)), m);
  }

  lemma Expanded(x: int, y: int, d: int)
    ensures (y * y - x * x) - (1 + d * ((x * y) * (x * y)))
         == (Prod(y, y) - 1) - Prod(Prod(d, Prod(y, y)) + 1, Prod(x, x))
  {
  }

  /** The square of num * root against den: num again, or zero. */
  lemma RootSquared(x2: int, n: int, e: int, root: int, m: int)
    requires 0 < m && Cong(x2, Prod(Prod(n, root), Prod(n, root)), m)
    requires if Cong(Prod(n, e), 0, m) then Cong(root, 0, m) else RootModulo(root, Prod(n, e), m)
    ensures Cong(Prod(e, x2), if Cong(Prod(n, e), 0, m) then 0 else n, m)
  {
    assert !Cong(Prod(n, e), 0, m) ==> Cong(root * root * Prod(n, e), 1, m);
    hide Cong, RootModulo;
    var w := Prod(Prod(n, root), Prod(n, root));
    CongRefl(e, m);
    CongMul(e, e, x2, w, m);
    Gather(n, e, root);
    if Cong(Prod(n, e), 0, m) {
      CongRefl(e * n * n * root, m);
      CongMul(e * n * n * root, e * n * n * root, root, 0, m);
      CongTrans(Prod(e, x2), e * w, 0, m);
    } else {
      CongRefl(n, m);
      CongMul(n, n, root * root * Prod(n, e), 1, m);
      CongTrans(Prod(e, x2), e * w, n, m);
    }
  }

  lemma Gather(n: int, e: int, r: int)
    ensures e * Prod(Prod(n, r), Prod(n, r)) == n * (r * r * Prod(n, e))
    ensures e * Prod(Prod(n, r), Prod(n, r)) == e * n * n * r * r
  {
  }

  /** A point with root as inverse root is on the curve: away from a zero product always, else only for y^2 = 1. */
  lemma RootOnCurve(p: Point, y: int, root: int, d: int, m: int)
    requires 0 < m && Cong(p.y, y, m) && p.z == 1 && Cong(p.t, Prod(p.x, p.y), m)
    requires Cong(Prod(p.x, p.x), Prod(Prod(Numerator(y), root), Prod(Numerator(y), root)), m)
    requires var v := Prod(Numerator(y), Scale(d, y));
             if Cong(v, 0, m) then Cong(root, 0, m) else RootModulo(root, v, m)
    ensures CurveEquation(p, d, m) <==> (!Cong(Prod(Numerator(y), Scale(d, y)), 0, m) || Cong(Numerator(y), 0, m))
  {
    hide *;
    var n, e, x2 := Numerator(y), Scale(d, y), Prod(p.x, p.x);
    CurveIff(p, y, d, m);
    RootSquared(x2, n, e, root, m);
    CongRefl(n, m);
    CongFlip(n, Prod(e, x2), if Cong(Prod(n, e), 0, m) then 0 else n, m);
  }

  lemma DecodedCurve(p: Point, y: int)
    ensures OnCurve(p) <==> CurveEquation(p, FeVal(D()), P())
    ensures Denominator(y) == Scale(FeVal(D()), y)
  {
  }

  lemma CongFlip(a: int, b: int, c: int, m: int)
    requires 0 < m && Cong(b, c, m)
    ensures Cong(a, b, m) <==> Cong(a, c, m)
  {
  }

  /** h.X = num * den and h.T = num for the encoded y. */
  method Fraction(h: Ge, s: seq<u8>)
    requires h.Shape() && |s| == 32
    modifies h.X, h.Y, h.Z, h.T
    ensures Grown(h.X[..], 1) && Grown(h.Y[..], 1) && Grown(h.Z[..], 1) && Grown(h.T[..], 2)
    ensures Cong(FeVal(h.Y[..]), EncodedY(s), P()) && FeVal(h.Z[..]) == 1
    ensures Cong(FeVal(h.T[..]), Numerator(EncodedY(s)), P())
    ensures Cong(FeVal(h.X[..]), Prod(Numerator(EncodedY(s)), Denominator(EncodedY(s))), P())
  {
    DTight();
    var limbs := D();
    hide FeVal, Sum, Grown, Cong, Prod, Pow2, P, D, Numerator, Denominator, EncodedY, Tight;
    FeFromBytesMask(h.Y, s, 1);
    OneIsTight(h.Y[..]);
    FeSmall(h.Z, 1);
    OneIsTight(h.Z[..]);
    ghost var y := FeVal(h.Y[..]);
    Sq(h.T, h.Y, 1);
    ghost var y2 := FeVal(h.T[..]);
    var d := new i32[10](i requires 0 <= i < 10 => limbs[i]);
    assert d[..] == limbs;
    OneIsTight(d[..]);
    Mul(h.X, h.T, d, 1, 1);
    ghost var dy2 := FeVal(h.X[..]);
    FeSub(h.T, h.T, h.Z, 1, 1);
    FeAdd(h.X, h.X, h.Z, 1, 1);
    Mul(h.X, h.T, h.X, 2, 2);
    FractionVal(s, y, y2, dy2, FeVal(limbs), FeVal(h.X[..]));
  }

  lemma FractionVal(s: seq<u8>, y: int, y2: int, dy2: int, d: int, x: int)
    requires |s| == 32 && Cong(y, Num(s, 32) % Pow2(256 - 1), P()) && d == FeVal(D())
    requires Cong(y2, Prod(y, y), P()) && Cong(dy2, Prod(y2, d), P()) && Cong(x, Prod(y2 - 1, dy2 + 1), P())
    ensures Cong(y, EncodedY(s), P()) && Cong(y2 - 1, Numerator(EncodedY(s)), P())
    ensures Cong(x, Prod(Numerator(EncodedY(s)), Denominator(EncodedY(s))), P())
  {
    hide *;
    var e, m := EncodedY(s), P();
    EncodedIs(s);
    FractionIs(e, d);
    ProdCong(y2, y, e, y, e, m);
    CongRefl(1, m);
    CongRefl(d, m);
    ProdCong(dy2, y2, Prod(e, e), d, d, m);
    CongAdd(y2, Prod(e, e), 1, 1, m);
    CongAdd(dy2, Prod(d, Prod(e, e)), 1, 1, m);
    ProdCong(x, y2 - 1, Prod(e, e) - 1, dy2 + 1, Prod(d, Prod(e, e)) + 1, m);
  }

  lemma EncodedIs(s: seq<u8>)
    requires |s| == 32
    ensures EncodedY(s) == Num(s, 32) % Pow2(256 - 1)
  {
    hide Pow2;
  }

  lemma FractionIs(e: int, d: int)
    requires d == FeVal(D())
    ensures Numerator(e) == Prod(e, e) - 1 && Denominator(e) == Prod(d, Prod(e, e)) + 1
    ensures Prod(Prod(e, e), d) == Prod(d, Prod(e, e))
  {
    hide FeVal;
  }

  lemma QuarticCong(v: int, w: int)
    requires Cong(v, w, P())
    ensures Cong(v, 0, P()) <==> Cong(w, 0, P())
    ensures Cong(Quartic(v), 1, P()) <==> Cong(Quartic(w), 1, P())
    ensures Cong(Quartic(v), -1, P()) <==> Cong(Quartic(w), -1, P())
  {
    hide *;
    QuarticIs(v);
    QuarticIs(w);
    QuarticExponent();
    PowCong(v, w, Pow2(253) - 5, P());
    CongBoth(v, w, 0, P());
    CongBoth(Quartic(v), Quartic(w), 1, P());
    CongBoth(Quartic(v), Quartic(w), -1, P());
  }

  lemma InverseRootCong(r: int, v: int, w: int, m: int)
    requires 0 < m && Cong(v, w, m)
    ensures RootModulo(r, v, m) <==> RootModulo(r, w, m)
  {
    hide Cong;
    CongRefl(r * r, m);
    CongMul(r * r, r * r, v, w, m);
    CongBoth(r * r * v, r * r * w, 1, m);
  }

  /** Negating an element that is not zero changes the parity of its representative. */
  lemma NegParity(x: int, p: nat)
    requires p > 0 && p % 2 == 1
    ensures x % p != 0 ==> (-x) % p == p - x % p && ((-x) % p) % 2 != (x % p) % 2
    ensures x % p == 0 ==> (-x) % p == 0
  {
    var q, r := x / p, x % p;
    assert x == p * q + r;
    if r != 0 {
      MulSub(p, 0, q + 1);
      DivModUnique(-x, -(q + 1), p - r, p);
    } else {
      DivModUnique(-x, -q, 0, p);
    }
  }

  /** x = num * root with the sign opposite to the encoded one, and T = x * y. */
  method Finish(h: Ge, s: seq<u8>, ghost n: int, ghost root: int) returns (status: int)
    requires h.Shape() && |s| == 32
    requires Grown(h.X[..], 1) && Grown(h.Y[..], 1) && Grown(h.Z[..], 1) && Grown(h.T[..], 2)
    requires FeVal(h.X[..]) == root && Cong(FeVal(h.T[..]), n, P()) && FeVal(h.Z[..]) == 1
    modifies h.X, h.T
    ensures status == 0 && h.Tidy() && h.Value().z == 1
    ensures Cong(h.Value().t, Prod(h.Value().x, h.Value().y), P())
    ensures Cong(Prod(h.Value().x, h.Value().x), Prod(Prod(n, root), Prod(n, root)), P())
    ensures h.Value().x % P() != 0 ==> (h.Value().x % P()) % 2 != s[31] / 0x80
  {
    ghost var t := FeVal(h.T[..]);
    hide FeVal, Sum, Grown, Cong, Prod, Pow2, P;
    Mul(h.X, h.T, h.X, 2, 1);
    ghost var x := FeVal(h.X[..]);
    CongRefl(root, P());
    ProdCong(x, t, n, root, root, P());
    OneIsTight(h.X[..]);
    var odd := FeIsOdd(h.X);
    OddPrime();
    NegParity(x, P());
    if odd == s[31] / 0x80 {
      FeNeg(h.X, h.X);
      OneIsTight(h.X[..]);
    }
    SquareSign(FeVal(h.X[..]), x, Prod(n, root), P());
    Mul(h.T, h.X, h.Y, 1, 1);
    status := 0;
  }

  lemma OddPrime()
    ensures P() % 2 == 1
  {
  }

  lemma SquareSign(r: int, x: int, w: int, m: int)
    requires 0 < m && (r == x || r == -x) && Cong(x, w, m)
    ensures Cong(Prod(r, r), Prod(w, w), m)
  {
    NegSquare(x);
    CongMul(x, w, x, w, m);
  }

  lemma ExtendedUnit(p: Point)
    requires p.z == 1 && Cong(p.t, Prod(p.x, p.y), P())
    ensures Extended(p)
  {
  }

  /** The condition that decoding tests. */
  ghost predicate Decodable(s: seq<u8>) {
    |s| == 32 &&
    var v := Prod(Numerator(EncodedY(s)), Denominator(EncodedY(s)));
    Cong(v, 0, P()) || Cong(Quartic(v), 1, P()) || Cong(Quartic(v), -1, P())
  }

  /** p has the encoded y, the sign opposite to the encoded one, and T = X * Y / Z; it lies on the curve if and only if the
      product of numerator and denominator is not 0 or the numerator is. */
  ghost predicate Decoded(p: Point, s: seq<u8>) {
    && |s| == 32 && p.z == 1 && Extended(p) && Cong(p.y, EncodedY(s), P())
    && (OnCurve(p) <==> !Exceptional(EncodedY(s)))
    && (p.x % P() != 0 ==> (p.x % P()) % 2 != s[31] / 0x80)
  }

  /** The denominator vanishes and the numerator does not. */
  ghost predicate Exceptional(y: int) {
    Cong(Prod(Numerator(y), Denominator(y)), 0, P()) && !Cong(Numerator(y), 0, P())
  }

  lemma DecodableIs(s: seq<u8>)
    requires |s| == 32
    ensures var v := Prod(Numerator(EncodedY(s)), Denominator(EncodedY(s)));
            Decodable(s) <==> Cong(v, 0, P()) || Cong(Quartic(v), 1, P()) || Cong(Quartic(v), -1, P())
  {
    hide P, Cong, Quartic, EncodedY, Numerator, Denominator;
  }

  lemma DecodedIs(p: Point, s: seq<u8>)
    requires |s| == 32 && p.z == 1 && Extended(p) && Cong(p.y, EncodedY(s), P())
    requires var n, e := Numerator(EncodedY(s)), Denominator(EncodedY(s));
             OnCurve(p) <==> (!Cong(Prod(n, e), 0, P()) || Cong(n, 0, P()))
    requires p.x % P() != 0 ==> (p.x % P()) % 2 != s[31] / 0x80
    ensures Decoded(p, s)
  {
    hide P, Cong, EncodedY, Numerator, Denominator, OnCurve, Extended;
  }

  /** h = -s for the point encoded in s; -1 if its x coordinate is not a root in the field. */
  method GeFromBytesNeg(h: Ge, s: seq<u8>) returns (status: int)
    requires h.Shape() && |s| == 32
    modifies h.X, h.Y, h.Z, h.T
    ensures status == 0 || status == -1
    ensures status == 0 <==> Decodable(s)
    ensures status == 0 ==> h.Tidy() && Decoded(h.Value(), s)
  {
    ghost var y := EncodedY(s);
    ghost var n, e := Numerator(y), Denominator(y);
    hide *;
    DecodableIs(s);
    Fraction(h, s);
    OneIsTight(h.X[..]);
    ghost var v := FeVal(h.X[..]);
    QuarticCong(v, Prod(n, e));
    var isSquare := InvSqrt(h.X, h.X);
    OneIsTight(h.X[..]);
    ghost var root := FeVal(h.X[..]);
    RootIs(root, v);
    InverseRootCong(root, v, Prod(n, e), P());
    if isSquare == 0 {
      return -1;
    }
    status := Finish(h, s, n, root);
    ExtendedUnit(h.Value());
    DecodedCurve(h.Value(), y);
    RootIs(root, Prod(n, e));
    RootOnCurve(h.Value(), y, root, FeVal(D()), P());
    DecodedIs(h.Value(), s);
  }

  lemma {:induction false} PowCong(a: int, b: int, e: nat, m: int)
    requires 0 < m && Cong(a, b, m)
    ensures Cong(Pow(a, e), Pow(b, e), m)
  {
    if e == 0 {
    } else {
      PowCong(a, b, e - 1, m);
      CongMul(a, b, Pow(a, e - 1), Pow(b, e - 1), m);
    }
  }
}
