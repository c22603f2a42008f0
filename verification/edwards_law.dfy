/** What the point formulas mean on the curve -x^2 + y^2 = 1 + d x^2 y^2, and decoding. */
module EdwardsLaw {
  import opened Arith
  import opened Field25519
  import opened FieldCodec
  import opened Edwards

  /** The limbs of the curve constant d. */
  function D(): (f: seq<i32>)
    ensures |f| == 10
  {
    [-10913610, 13857413, -15372611, 6949391, 114729, -8787816, -6275908, -3247719, -18696448, -12055116]
  }

  lemma DTight()
    ensures Tight(D())
  {
  }

  /** The doubled constant is twice d, and d is -121665 / 121666. */
  lemma CurveConstant()
    ensures FeVal(D2()) == 2 * FeVal(D()) + P() && Cong(FeVal(D2()), 2 * FeVal(D()), P())
    ensures Cong(FeVal(D()) * 121666, -121665, P())
  {
    var f, g := D(), D2();
    assert W(2) == 0x8_0000_0000_0000 && W(4) == 0x40_0000_0000_0000_0000_0000_0000;
    assert W(6) == 0x200_0000_0000_0000_0000_0000_0000_0000_0000_0000;
    assert W(8) == 0x1000_0000_0000_0000_0000_0000_0000_0000_0000_0000_0000_0000_0000;
    TenTerms(f);
    TenTerms(g);
    CongIntro(FeVal(g), 2 * FeVal(f), 1, P());
    CongIntro(FeVal(f) * 121666, -121665, (FeVal(f) * 121666 + 121665) / P(), P());
  }

  lemma TenTerms(f: seq<int>)
    requires |f| == 10
    ensures FeVal(f) == f[0] + W(1) * f[1] + W(2) * f[2] + W(3) * f[3] + W(4) * f[4]
                        + W(5) * f[5] + W(6) * f[6] + W(7) * f[7] + W(8) * f[8] + W(9) * f[9]
  {
    SumFive(f, 0);
    SumFive(f, 5);
    assert Sum(f, 0) == 0 && W(0) == 1;
  }

  /** r is the sum of p and q: with z and t scaled out, the Edwards addition law
      x3 (1 + d x1 x2 y1 y2) = x1 y2 + y1 x2 and y3 (1 - d x1 x2 y1 y2) = y1 y2 + x1 x2. */
  ghost predicate IsSum(r: Point, p: Point, q: Point, d: int, m: int) {
    && 0 < m
    && Cong(r.x * (p.z * q.z + d * (p.t * q.t)), r.z * (p.x * q.y + p.y * q.x), m)
    && Cong(r.y * (p.z * q.z - d * (p.t * q.t)), r.z * (p.y * q.y + p.x * q.x), m)
  }

  /** The addition formula computes the addition law. */
  lemma AdditionLaw(p: Point, q: Point, d: int, k: int)
    requires 0 < k
    ensures IsSum(AddFormula(p, Cached(q.y + q.x, q.y - q.x, q.z, q.t * (2 * d))), p, q, d, k)
  {
    var a, b := Prod(p.y + p.x, q.y + q.x), Prod(p.y - p.x, q.y - q.x);
    var z, t := Prod(p.z + p.z, q.z), Prod(p.t, q.t * (2 * d));
    var m, n := p.x * q.y + p.y * q.x, p.y * q.y + p.x * q.x;
    var zz, dt := p.z * q.z, d * (p.t * q.t);
    assert a - b == 2 * m && a + b == 2 * n && z == 2 * zz && t == 2 * dt by {
      Cross(p, q, d);
    }
    var r := AddFormula(p, Cached(q.y + q.x, q.y - q.x, q.z, q.t * (2 * d)));
    assert r.x == Prod(2 * m, 2 * (zz - dt)) && r.y == Prod(2 * n, 2 * (zz + dt));
    assert r.z == Prod(2 * (zz + dt), 2 * (zz - dt));
    Factors(m, zz - dt, zz + dt);
    Factors(n, zz + dt, zz - dt);
    assert Prod(2 * (zz + dt), 2 * (zz - dt)) == Prod(2 * (zz - dt), 2 * (zz + dt));
  }

  lemma Cross(p: Point, q: Point, d: int)
    ensures (p.y + p.x) * (q.y + q.x) - (p.y - p.x) * (q.y - q.x) == 2 * (p.x * q.y + p.y * q.x)
    ensures (p.y + p.x) * (q.y + q.x) + (p.y - p.x) * (q.y - q.x) == 2 * (p.y * q.y + p.x * q.x)
    ensures (p.z + p.z) * q.z == 2 * (p.z * q.z) && p.t * (q.t * (2 * d)) == 2 * (d * (p.t * q.t))
  {
  }

  lemma Factors(m: int, f: int, g: int)
    ensures Prod(2 * m, 2 * f) * g == Prod(2 * g, 2 * f) * m
  {
  }

  /** Adding a cached point adds the point it was made from. */
  lemma CachedSum(p: Point, q: Point, c: Cached, r: Point, d: int, d2: int, m: int)
    requires 0 < m && c.yp == q.y + q.x && c.ym == q.y - q.x && c.z == q.z
    requires SameModulo(r, AddFormula(p, c), m) && Cong(d2, 2 * d, m) && Cong(c.t2, Prod(q.t, d2), m)
    ensures IsSum(r, p, q, d, m) && Cong(r.t * r.z, r.x * r.y, m)
  {
    hide *;
    SumsExtended(p, c, r, m);
    AdditionLaw(p, q, d, m);
    CongRefl(q.t, m);
    CongTwice(c.t2, q.t, d2, d, m);
    SameAddition(p, c, c.(t2 := q.t * (2 * d)), m);
    SumOfSame(r, AddFormula(p, c), AddFormula(p, c.(t2 := q.t * (2 * d))), p, q, d, m);
  }

  lemma CongTwice(c: int, t: int, d2: int, d: int, m: int)
    requires 0 < m && Cong(d2, 2 * d, m) && Cong(c, Prod(t, d2), m)
    ensures Cong(c, t * (2 * d), m)
  {
    ProdCong(c, t, t, d2, 2 * d, m);
  }

  lemma SameAddition(p: Point, c: Cached, c': Cached, m: int)
    requires 0 < m && Cong(c.t2, c'.t2, m) && c' == c.(t2 := c'.t2)
    ensures SameModulo(AddFormula(p, c), AddFormula(p, c'), m)
  {
    var a, b := Prod(p.y + p.x, c.yp), Prod(p.y - p.x, c.ym);
    var z, t, t' := Prod(p.z + p.z, c.z), Prod(p.t, c.t2), Prod(p.t, c'.t2);
    var r, r' := AddFormula(p, c), AddFormula(p, c');
    assert r == Point(Prod(a - b, z - t), Prod(a + b, z + t), Prod(z + t, z - t), Prod(a - b, a + b));
    assert r' == Point(Prod(a - b, z - t'), Prod(a + b, z + t'), Prod(z + t', z - t'), Prod(a - b, a + b));
    CongRefl(p.t, m);
    CongMul(p.t, p.t, c.t2, c'.t2, m);
    hide Prod, Cong;
    Same4(r, r', a - b, a + b, z, t, t', m);
  }

  lemma Same4(r: Point, r': Point, d: int, h: int, z: int, t: int, t': int, m: int)
    requires 0 < m && Cong(t, t', m)
    requires r == Point(Prod(d, z - t), Prod(h, z + t), Prod(z + t, z - t), Prod(d, h))
    requires r' == Point(Prod(d, z - t'), Prod(h, z + t'), Prod(z + t', z - t'), Prod(d, h))
    ensures SameModulo(r, r', m)
  {
    hide Prod, Cong;
    CongRefl(z, m);
    CongRefl(d, m);
    CongRefl(h, m);
    CongRefl(r.x, m);
    CongRefl(r.y, m);
    CongRefl(r.z, m);
    CongRefl(r.t, m);
    CongAdd(z, z, t, t', m);
    ProdCong(r.x, d, d, z - t, z - t', m);
    ProdCong(r.y, h, h, z + t, z + t', m);
    ProdCong(r.z, z + t, z + t', z - t, z - t', m);
  }

  lemma SumOfSame(r: Point, s: Point, r': Point, p: Point, q: Point, d: int, m: int)
    requires SameModulo(r, s, m) && SameModulo(s, r', m) && IsSum(r', p, q, d, m)
    ensures IsSum(r, p, q, d, m)
  {
    var g, f := p.z * q.z + d * (p.t * q.t), p.z * q.z - d * (p.t * q.t);
    hide Cong;
    CongTrans(r.x, s.x, r'.x, m);
    CongTrans(r.y, s.y, r'.y, m);
    CongTrans(r.z, s.z, r'.z, m);
    Scaled2(r.x, r'.x, g, r.z, r'.z, p.x * q.y + p.y * q.x, m);
    Scaled2(r.y, r'.y, f, r.z, r'.z, p.y * q.y + p.x * q.x, m);
  }

  lemma Scaled2(a: int, a': int, f: int, b: int, b': int, c: int, m: int)
    requires 0 < m && Cong(a, a', m) && Cong(b, b', m) && Cong(a' * f, b' * c, m)
    ensures Cong(a * f, b * c, m)
  {
    hide *;
    CongRefl(f, m);
    CongRefl(c, m);
    CongMul(a, a', f, f, m);
    CongMul(b, b', c, c, m);
    CongTrans(a * f, a' * f, b' * c, m);
    CongRefl(b' * c, m);
    CongTrans(b * c, b' * c, b' * c, m);
    CongTrans(a * f, b' * c, b * c, m);
  }

  /** The curve equation in extended coordinates, for a constant d and a modulus m. */
  ghost predicate CurveEquation(p: Point, d: int, m: int) {
    0 < m && Cong(p.y * p.y - p.x * p.x, p.z * p.z + d * (p.t * p.t), m)
  }

  /** The point lies on the curve. */
  ghost predicate OnCurve(p: Point) {
    CurveEquation(p, FeVal(D()), P())
  }

  /** On the curve, doubling is adding the point to itself. */
  lemma DoublingLaw(p: Point, d: int, m: int)
    requires CurveEquation(p, d, m)
    ensures IsSum(DoubleFormula(p), p, p, d, m)
  {
    var x, t, y, zz := 2 * (p.x * p.y), p.y * p.y + p.x * p.x, p.y * p.y - p.x * p.x, p.z * p.z;
    var z, dt := 2 * zz - y, d * (p.t * p.t);
    var r := DoubleFormula(p);
    Square2(p.x, p.y);
    assert r == Point(Prod(x, z), Prod(t, y), Prod(y, z), Prod(x, t));
    hide Cong;
    CongRefl(2 * zz, m);
    CongAdd(2 * zz, 2 * zz, y, zz + dt, m);
    DoubleStep(x, z, y, zz + dt, m);
    DoubleStep(t, y, z, zz - dt, m);
    assert p.x * p.y + p.y * p.x == x;
    Swap(y, z);
  }

  lemma Square2(x: int, y: int)
    ensures (x + y) * (x + y) - (y * y + x * x) == 2 * (x * y)
  {
  }

  lemma Swap(y: int, z: int)
    ensures Prod(y, z) == Prod(z, y)
  {
  }

  lemma DoubleStep(x: int, z: int, y: int, g: int, m: int)
    requires 0 < m && Cong(y, g, m)
    ensures Cong(Prod(x, z) * g, Prod(y, z) * x, m)
  {
    hide Cong;
    CongRefl(Prod(x, z), m);
    CongMul(Prod(x, z), Prod(x, z), y, g, m);
    assert Prod(x, z) * y == Prod(y, z) * x;
    CongTrans(Prod(x, z) * y, Prod(x, z) * g, Prod(x, z) * g, m);
  }
}
