/** Points of the twisted Edwards curve in extended coordinates: the limb bounds of every field
    operation, and the addition law that the formulas compute. */
module Edwards {
  import opened Arith
  import opened Field25519
  import opened FieldMul
  import opened FieldSquare
  import opened FieldOps

  /** Coordinates as integers, meant modulo P: x = X / Z, y = Y / Z, T = X * Y / Z. */
  datatype Point = Point(x: int, y: int, z: int, t: int)

  /** A point prepared as second summand: Y + X, Y - X, Z and T times twice the curve constant. */
  datatype Cached = Cached(yp: int, ym: int, z: int, t2: int)

  ghost predicate SameModulo(p: Point, q: Point, m: int) {
    0 < m && Cong(p.x, q.x, m) && Cong(p.y, q.y, m) && Cong(p.z, q.z, m) && Cong(p.t, q.t, m)
  }

  ghost predicate SamePoint(p: Point, q: Point) {
    SameModulo(p, q, P())
  }

  /** The fourth coordinate is consistent with the others. */
  ghost predicate Extended(p: Point) {
    Cong(p.t * p.z, p.x * p.y, P())
  }

  /** The addition formula on integers. */
  function AddFormula(p: Point, q: Cached): Point {
    var a, b := Prod(p.y + p.x, q.yp), Prod(p.y - p.x, q.ym);
    var z, t := Prod(p.z + p.z, q.z), Prod(p.t, q.t2);
    Point(Prod(a - b, z - t), Prod(a + b, z + t), Prod(z + t, z - t), Prod(a - b, a + b))
  }

  /** The doubling formula on integers. */
  function DoubleFormula(p: Point): Point {
    var x2, y2, z2 := Prod(p.x, p.x), Prod(p.y, p.y), 2 * Prod(p.z, p.z);
    var s := Prod(p.x + p.y, p.x + p.y);
    var t, y := y2 + x2, y2 - x2;
    var x, z := s - t, z2 - y;
    Point(Prod(x, z), Prod(t, y), Prod(y, z), Prod(x, t))
  }

  class Ge {
    const X: array<i32>
    const Y: array<i32>
    const Z: array<i32>
    const T: array<i32>

    constructor ()
      ensures Shape() && fresh(X) && fresh(Y) && fresh(Z) && fresh(T)
    {
      X := new i32[10](_ => 0);
      Y := new i32[10](_ => 0);
      Z := new i32[10](_ => 0);
      T := new i32[10](_ => 0);
    }

    predicate Shape() {
      && X.Length == Y.Length == Z.Length == T.Length == 10
      && X != Y && X != Z && X != T && Y != Z && Y != T && Z != T
    }

    ghost function Value(): Point
      reads X, Y, Z, T
      requires Shape()
    {
      Point(FeVal(X[..]), FeVal(Y[..]), FeVal(Z[..]), FeVal(T[..]))
    }

    /** Every coordinate is as a product leaves it. */
    ghost predicate Tidy()
      reads X, Y, Z, T
      requires Shape()
    {
      Grown(X[..], 1) && Grown(Y[..], 1) && Grown(Z[..], 1) && Grown(T[..], 1)
    }

    predicate Apart(a: array<i32>) {
      a != X && a != Y && a != Z && a != T
    }
  }

  class GeCached {
    const Yp: array<i32>
    const Ym: array<i32>
    const Z: array<i32>
    const T2: array<i32>

    constructor ()
      ensures Shape() && fresh(Yp) && fresh(Ym) && fresh(Z) && fresh(T2)
    {
      Yp := new i32[10](_ => 0);
      Ym := new i32[10](_ => 0);
      Z := new i32[10](_ => 0);
      T2 := new i32[10](_ => 0);
    }

    predicate Shape() {
      && Yp.Length == Ym.Length == Z.Length == T2.Length == 10
      && Yp != Ym && Yp != Z && Yp != T2 && Ym != Z && Ym != T2 && Z != T2
    }

    ghost function Value(): Cached
      reads Yp, Ym, Z, T2
      requires Shape()
    {
      Cached(FeVal(Yp[..]), FeVal(Ym[..]), FeVal(Z[..]), FeVal(T2[..]))
    }

    /** Sums and differences are one carry short; the rest is tight. */
    ghost predicate Tidy()
      reads Yp, Ym, Z, T2
      requires Shape()
    {
      Grown(Yp[..], 2) && Grown(Ym[..], 2) && Grown(Z[..], 1) && Grown(T2[..], 1)
    }

    predicate ApartFrom(p: Ge) {
      p.Apart(Yp) && p.Apart(Ym) && p.Apart(Z) && p.Apart(T2)
    }
  }

  /** A cached point with Z = 1. */
  class GePrecomp {
    const Yp: array<i32>
    const Ym: array<i32>
    const T2: array<i32>

    constructor ()
      ensures Shape() && fresh(Yp) && fresh(Ym) && fresh(T2)
    {
      Yp := new i32[10](_ => 0);
      Ym := new i32[10](_ => 0);
      T2 := new i32[10](_ => 0);
    }

    predicate Shape() {
      Yp.Length == Ym.Length == T2.Length == 10 && Yp != Ym && Yp != T2 && Ym != T2
    }

    ghost function Value(): Cached
      reads Yp, Ym, T2
      requires Shape()
    {
      Cached(FeVal(Yp[..]), FeVal(Ym[..]), 1, FeVal(T2[..]))
    }

    ghost predicate Tidy()
      reads Yp, Ym, T2
      requires Shape()
    {
      Grown(Yp[..], 1) && Grown(Ym[..], 1) && Grown(T2[..], 1)
    }

    predicate ApartFrom(p: Ge) {
      p.Apart(Yp) && p.Apart(Ym) && p.Apart(T2)
    }
  }

  predicate SameOrApart(s: Ge, p: Ge) {
    s == p || (s.Apart(p.X) && s.Apart(p.Y) && s.Apart(p.Z) && s.Apart(p.T))
  }

  /** h = f * g for limbs grown by sums: the bound a product accepts is exactly three tight ones. */
  method Mul(h: array<i32>, f: array<i32>, g: array<i32>, ghost j: nat, ghost k: nat)
    requires h.Length == 10 && Grown(f[..], j) && Grown(g[..], k)
    modifies h
    ensures Grown(h[..], 1) && Cong(FeVal(h[..]), Prod(FeVal(old(f[..])), FeVal(old(g[..]))), P())
  {
    ThreeIsLoose(f[..], j);
    ThreeIsLoose(g[..], k);
    FeMul(h, f, g);
    OneIsTight(h[..]);
  }

  method Sq(h: array<i32>, f: array<i32>, ghost k: nat)
    requires h.Length == 10 && Grown(f[..], k)
    modifies h
    ensures Grown(h[..], 1) && Cong(FeVal(h[..]), Prod(FeVal(old(f[..])), FeVal(old(f[..]))), P())
  {
    ThreeIsLoose(f[..], k);
    FeSq(h, f);
    OneIsTight(h[..]);
  }

  /** y = u + v and x = u - v, where u and v are the products of sum and difference. */
  method CrossProducts(y: array<i32>, x: array<i32>, py: array<i32>, px: array<i32>,
                       yp: array<i32>, ym: array<i32>, a: array<i32>, b: array<i32>) returns (ghost u: int, ghost v: int)
    requires y.Length == x.Length == a.Length == b.Length == 10 && x != y && a != b
    requires a != x && a != y && b != x && b != y && a != px && a != py && b != px && b != py
    requires a != yp && a != ym && b != yp && b != ym
    requires Grown(py[..], 1) && Grown(px[..], 1) && Grown(yp[..], 2) && Grown(ym[..], 2)
    modifies y, x, a, b
    ensures Grown(y[..], 2) && Grown(x[..], 2) && FeVal(y[..]) == u + v && FeVal(x[..]) == u - v
    ensures Cong(u, Prod(FeVal(old(py[..])) + FeVal(old(px[..])), FeVal(old(yp[..]))), P())
    ensures Cong(v, Prod(FeVal(old(py[..])) - FeVal(old(px[..])), FeVal(old(ym[..]))), P())
  {
    hide *;
    GrownLength(py[..], 1);
    GrownLength(px[..], 1);
    GrownLength(yp[..], 2);
    GrownLength(ym[..], 2);
    FeAdd(a, py, px, 1, 1);
    FeSub(b, py, px, 1, 1);
    Mul(a, a, yp, 2, 2);
    Mul(b, b, ym, 2, 2);
    u, v := FeVal(a[..]), FeVal(b[..]);
    FeAdd(y, a, b, 1, 1);
    FeSub(x, a, b, 1, 1);
  }

  lemma GrownLength(f: seq<int>, k: nat)
    requires Grown(f, k)
    ensures |f| == 10
  {
  }

  /** The last four products of an addition, in place. */
  method Complete(s: Ge, a: array<i32>, b: array<i32>, ghost k: nat)
    requires s.Shape() && a.Length == b.Length == 10 && a != b && s.Apart(a) && s.Apart(b)
    requires Grown(s.X[..], 2) && Grown(s.Y[..], 2) && Grown(s.Z[..], k) && Grown(s.T[..], 1) && k <= 2
    modifies s.X, s.Y, s.Z, s.T, a, b
    ensures s.Tidy()
    ensures var d, h := FeVal(old(s.X[..])), FeVal(old(s.Y[..]));
            var z, t := FeVal(old(s.Z[..])), FeVal(old(s.T[..])); var r := s.Value();
            && Cong(r.x, Prod(d, z - t), P()) && Cong(r.y, Prod(h, z + t), P())
            && Cong(r.z, Prod(z + t, z - t), P()) && Cong(r.t, Prod(d, h), P())
  {
    hide FeVal, Sum, Grown, Cong, Prod;
    FeAdd(a, s.Z, s.T, k, 1);
    FeSub(b, s.Z, s.T, k, 1);
    Mul(s.T, s.X, s.Y, 2, 2);
    Mul(s.X, s.X, b, 2, k + 1);
    Mul(s.Y, s.Y, a, 2, k + 1);
    Mul(s.Z, a, b, k + 1, k + 1);
  }

  /** The sum of a point and a cached point. s may be p. */
  method GeAdd(s: Ge, p: Ge, q: GeCached)
    requires s.Shape() && p.Shape() && q.Shape() && SameOrApart(s, p) && q.ApartFrom(s)
    requires p.Tidy() && q.Tidy()
    modifies s.X, s.Y, s.Z, s.T
    ensures s.Tidy() && SamePoint(s.Value(), AddFormula(old(p.Value()), q.Value()))
  {
    ghost var v, c := p.Value(), q.Value();
    var a := new i32[10](_ => 0);
    var b := new i32[10](_ => 0);
    hide FeVal, Sum, Grown, Cong, Prod, SameModulo, AddFormula;
    ghost var av, bv := CrossProducts(s.Y, s.X, p.Y, p.X, q.Yp, q.Ym, a, b);
    Scale(s, p, q);
    ghost var zv, tv := FeVal(s.Z[..]), FeVal(s.T[..]);
    Complete(s, a, b, 1);
    AddCongruent(v, c, av, bv, zv, tv, s.Value(), P());
  }

  /** Z = 2 * Z1 * Z2 and T = T1 * T2. */
  method Scale(s: Ge, p: Ge, q: GeCached)
    requires s.Shape() && p.Shape() && q.Shape() && SameOrApart(s, p) && q.ApartFrom(s)
    requires Grown(p.Z[..], 1) && Grown(p.T[..], 1) && q.Tidy()
    modifies s.Z, s.T
    ensures Grown(s.Z[..], 1) && Grown(s.T[..], 1)
    ensures var z, t := FeVal(old(p.Z[..])), FeVal(old(p.T[..])); var c := q.Value();
            Cong(FeVal(s.Z[..]), Prod(z + z, c.z), P()) && Cong(FeVal(s.T[..]), Prod(t, c.t2), P())
  {
    hide FeVal, Sum, Grown, Cong, Prod;
    FeAdd(s.Z, p.Z, p.Z, 1, 1);
    Mul(s.Z, s.Z, q.Z, 2, 1);
    Mul(s.T, p.T, q.T2, 1, 1);
  }

  lemma AddCongruent(p: Point, q: Cached, a: int, b: int, z: int, t: int, r: Point, m: int)
    requires 0 < m && Cong(a, Prod(p.y + p.x, q.yp), m) && Cong(b, Prod(p.y - p.x, q.ym), m)
    requires Cong(z, Prod(p.z + p.z, q.z), m) && Cong(t, Prod(p.t, q.t2), m)
    requires Cong(r.x, Prod(a - b, z - t), m) && Cong(r.y, Prod(a + b, z + t), m)
    requires Cong(r.z, Prod(z + t, z - t), m) && Cong(r.t, Prod(a - b, a + b), m)
    ensures SameModulo(r, AddFormula(p, q), m)
  {
    var a', b' := Prod(p.y + p.x, q.yp), Prod(p.y - p.x, q.ym);
    var z', t' := Prod(p.z + p.z, q.z), Prod(p.t, q.t2);
    assert AddFormula(p, q) == Point(Prod(a' - b', z' - t'), Prod(a' + b', z' + t'),
                                     Prod(z' + t', z' - t'), Prod(a' - b', a' + b'));
    CongAdd(a, a', b, b', m);
    CongAdd(z, z', t, t', m);
    ProdCong(r.x, a - b, a' - b', z - t, z' - t', m);
    ProdCong(r.y, a + b, a' + b', z + t, z' + t', m);
    ProdCong(r.z, z + t, z' + t', z - t, z' - t', m);
    ProdCong(r.t, a - b, a' - b', a + b, a' + b', m);
  }

  lemma ProdCong(r: int, x: int, x': int, y: int, y': int, m: int)
    requires 0 < m && Cong(r, Prod(x, y), m) && Cong(x, x', m) && Cong(y, y', m)
    ensures Cong(r, Prod(x', y'), m)
  {
    CongMul(x, x', y, y', m);
    CongTrans(r, Prod(x, y), Prod(x', y'), m);
  }

  /** The cached opposite: sum and difference exchanged, T negated. */
  function Opposite(q: Cached): Cached {
    Cached(q.ym, q.yp, q.z, -q.t2)
  }

  /** The difference of a point and a cached point. s may be p. */
  method GeSub(s: Ge, p: Ge, q: GeCached)
    requires s.Shape() && p.Shape() && q.Shape() && SameOrApart(s, p) && q.ApartFrom(s)
    requires p.Tidy() && q.Tidy()
    modifies s.X, s.Y, s.Z, s.T
    ensures s.Tidy() && SamePoint(s.Value(), AddFormula(old(p.Value()), Opposite(q.Value())))
  {
    var neg := new GeCached();
    hide FeVal, Sum, Grown, Cong, Prod, SameModulo, AddFormula;
    FeCopy(neg.Ym, q.Yp);
    FeCopy(neg.Yp, q.Ym);
    FeCopy(neg.Z, q.Z);
    OneIsTight(q.T2[..]);
    FeNeg(neg.T2, q.T2);
    OneIsTight(neg.T2[..]);
    assert neg.Value() == Opposite(q.Value());
    GeAdd(s, p, neg);
  }

  /** The sum with a precomputed point: one product fewer. a and b are scratch space. */
  method GeMadd(s: Ge, p: Ge, q: GePrecomp, a: array<i32>, b: array<i32>)
    requires s.Shape() && p.Shape() && q.Shape() && SameOrApart(s, p) && q.ApartFrom(s)
    requires a.Length == b.Length == 10 && a != b && s.Apart(a) && s.Apart(b) && p.Apart(a) && p.Apart(b)
    requires a != q.Yp && a != q.Ym && a != q.T2 && b != q.Yp && b != q.Ym && b != q.T2
    requires p.Tidy() && q.Tidy()
    modifies s.X, s.Y, s.Z, s.T, a, b
    ensures s.Tidy() && SamePoint(s.Value(), AddFormula(old(p.Value()), old(q.Value())))
  {
    ghost var v, c := p.Value(), q.Value();
    GrowMore(q.Yp[..]);
    GrowMore(q.Ym[..]);
    hide FeVal, Sum, Grown, Cong, Prod, SameModulo, AddFormula;
    ghost var av, bv := CrossProducts(s.Y, s.X, p.Y, p.X, q.Yp, q.Ym, a, b);
    FeAdd(s.Z, p.Z, p.Z, 1, 1);
    Mul(s.T, p.T, q.T2, 1, 1);
    ghost var zv, tv := FeVal(s.Z[..]), FeVal(s.T[..]);
    Complete(s, a, b, 2);
    UnitProd(zv, P());
    AddCongruent(v, c, av, bv, zv, tv, s.Value(), P());
  }

  lemma GrowMore(f: seq<int>)
    requires Grown(f, 1)
    ensures Grown(f, 2)
  {
  }

  lemma UnitProd(z: int, m: int)
    requires 0 < m
    ensures Cong(z, Prod(z, 1), m)
  {
  }

  /** The difference with a precomputed point. */
  method GeMsub(s: Ge, p: Ge, q: GePrecomp, a: array<i32>, b: array<i32>)
    requires s.Shape() && p.Shape() && q.Shape() && SameOrApart(s, p) && q.ApartFrom(s)
    requires a.Length == b.Length == 10 && a != b && s.Apart(a) && s.Apart(b) && p.Apart(a) && p.Apart(b)
    requires a != q.Yp && a != q.Ym && a != q.T2 && b != q.Yp && b != q.Ym && b != q.T2
    requires p.Tidy() && q.Tidy()
    modifies s.X, s.Y, s.Z, s.T, a, b
    ensures s.Tidy() && SamePoint(s.Value(), AddFormula(old(p.Value()), Opposite(old(q.Value()))))
  {
    var neg := new GePrecomp();
    hide FeVal, Sum, Grown, Cong, Prod, SameModulo, AddFormula;
    FeCopy(neg.Ym, q.Yp);
    FeCopy(neg.Yp, q.Ym);
    OneIsTight(q.T2[..]);
    FeNeg(neg.T2, q.T2);
    OneIsTight(neg.T2[..]);
    assert neg.Value() == Opposite(q.Value());
    GeMadd(s, p, neg, a, b);
  }

  /** The limbs of the curve constant, doubled. */
  function D2(): (f: seq<i32>)
    ensures |f| == 10
  {
    [-21827239, -5839606, -30745221, 13898782, 229458, 15978800, -12551817, -6495438, 29715968, 9444199]
  }

  lemma D2Tight()
    ensures Grown(D2(), 1)
  {
  }

  /** Prepares a point as second summand. */
  method GeCache(c: GeCached, p: Ge)
    requires c.Shape() && p.Shape() && c.ApartFrom(p) && p.Tidy()
    modifies c.Yp, c.Ym, c.Z, c.T2
    ensures c.Tidy()
    ensures var v := p.Value(); var r := c.Value();
            r.yp == v.y + v.x && r.ym == v.y - v.x && r.z == v.z && Cong(r.t2, Prod(v.t, FeVal(D2())), P())
  {
    D2Tight();
    var limbs := D2();
    var d2 := new i32[10](i requires 0 <= i < 10 => limbs[i]);
    assert d2[..] == limbs;
    hide FeVal, Sum, Grown, Cong, Prod, D2;
    FeAdd(c.Yp, p.Y, p.X, 1, 1);
    FeSub(c.Ym, p.Y, p.X, 1, 1);
    FeCopy(c.Z, p.Z);
    Mul(c.T2, p.T, d2, 1, 1);
  }

  /** h = f * g for a small constant g. */
  method FeMulSmall(h: array<i32>, f: array<i32>, g: i32)
    requires h.Length == f.Length == 10 && Loose(f[..])
    modifies h
    ensures Tight(h[..]) && Cong(FeVal(h[..]), g * FeVal(old(f[..])), P())
  {
    var a := f[..];
    forall i | 0 <= i < 10
      ensures -0x4000_0000_0000_0000 <= a[i] as int * g as int <= 0x4000_0000_0000_0000
    {
      AbsBound(a[i], g, 110729625, 0x8000_0000);
    }
    var t: seq<i64> := seq(10, i requires 0 <= i < 10 => a[i] as int * g as int);
    forall i | 0 <= i < 10
      ensures t[i] == 0 + g * a[i]
    {
    }
    ghost var z := seq(10, _ => 0);
    ZeroLimbs(z, 10);
    SumLinear(t, z, a, g, 10);
    FeCarry(h, t);
  }

  /** Twice a point. s may be p; q is scratch space. */
  method GeDouble(s: Ge, p: Ge, q: Ge)
    requires s.Shape() && p.Shape() && q.Shape() && SameOrApart(s, p)
    requires q != s && q != p && SameOrApart(q, s) && SameOrApart(q, p)
    requires p.Tidy()
    modifies s.X, s.Y, s.Z, s.T, q.X, q.Y, q.Z, q.T
    ensures s.Tidy() && SamePoint(s.Value(), DoubleFormula(old(p.Value())))
  {
    ghost var v := p.Value();
    hide FeVal, Sum, Grown, Cong, Prod, SameModulo, DoubleFormula;
    ghost var x2, y2, z2, s2 := Squares(s, p, q);
    DoubleSums(s, q);
    DoubleProducts(s, q);
    DoubleCongruent(v, x2, y2, z2, s2, s.Value(), P());
  }

  /** The four sums: at most three tight elements each. */
  method DoubleSums(s: Ge, q: Ge)
    requires s.Shape() && q.Shape() && q != s && SameOrApart(q, s)
    requires Grown(q.X[..], 1) && Grown(q.Y[..], 1) && Grown(q.Z[..], 1) && Grown(s.T[..], 1)
    modifies q.X, q.Y, q.Z, q.T
    ensures Grown(q.X[..], 3) && Grown(q.Y[..], 2) && Grown(q.Z[..], 3) && Grown(q.T[..], 2)
    ensures var x2, y2, z2, s2 := FeVal(old(q.X[..])), FeVal(old(q.Y[..])), FeVal(old(q.Z[..])), FeVal(s.T[..]);
            && FeVal(q.T[..]) == y2 + x2 && FeVal(q.Y[..]) == y2 - x2
            && FeVal(q.X[..]) == s2 - (y2 + x2) && FeVal(q.Z[..]) == z2 - (y2 - x2)
  {
    hide FeVal, Sum, Grown;
    FeAdd(q.T, q.Y, q.X, 1, 1);
    FeSub(q.Y, q.Y, q.X, 1, 1);
    FeSub(q.X, s.T, q.T, 1, 2);
    FeSub(q.Z, q.Z, q.Y, 1, 2);
  }

  /** The four products. */
  method DoubleProducts(s: Ge, q: Ge)
    requires s.Shape() && q.Shape() && q != s && SameOrApart(q, s)
    requires Grown(q.X[..], 3) && Grown(q.Y[..], 2) && Grown(q.Z[..], 3) && Grown(q.T[..], 2)
    modifies s.X, s.Y, s.Z, s.T
    ensures s.Tidy()
    ensures var v, r := q.Value(), s.Value();
            && Cong(r.x, Prod(v.x, v.z), P()) && Cong(r.y, Prod(v.t, v.y), P())
            && Cong(r.z, Prod(v.y, v.z), P()) && Cong(r.t, Prod(v.x, v.t), P())
  {
    hide FeVal, Sum, Grown, Cong, Prod;
    Mul(s.X, q.X, q.Z, 3, 3);
    Mul(s.Y, q.T, q.Y, 2, 2);
    Mul(s.Z, q.Y, q.Z, 2, 3);
    Mul(s.T, q.X, q.T, 3, 2);
  }

  /** The four squarings of a doubling. */
  method Squares(s: Ge, p: Ge, q: Ge) returns (ghost x2: int, ghost y2: int, ghost z2: int, ghost s2: int)
    requires s.Shape() && p.Shape() && q.Shape() && SameOrApart(s, p)
    requires q != s && q != p && SameOrApart(q, s) && SameOrApart(q, p)
    requires p.Tidy()
    modifies s.T, q.X, q.Y, q.Z, q.T
    ensures Grown(q.X[..], 1) && Grown(q.Y[..], 1) && Grown(q.Z[..], 1) && Grown(s.T[..], 1)
    ensures FeVal(q.X[..]) == x2 && FeVal(q.Y[..]) == y2 && FeVal(q.Z[..]) == z2 && FeVal(s.T[..]) == s2
    ensures var v := old(p.Value());
            && Cong(x2, Prod(v.x, v.x), P()) && Cong(y2, Prod(v.y, v.y), P())
            && Cong(z2, 2 * Prod(v.z, v.z), P()) && Cong(s2, Prod(v.x + v.y, v.x + v.y), P())
  {
    ghost var v := p.Value();
    hide FeVal, Sum, Grown, Cong, Prod;
    Sq(q.X, p.X, 1);
    Sq(q.Y, p.Y, 1);
    Sq(q.Z, p.Z, 1);
    ThreeIsLoose(q.Z[..], 1);
    ghost var zz := FeVal(q.Z[..]);
    FeMulSmall(q.Z, q.Z, 2);
    OneIsTight(q.Z[..]);
    TwiceCong(FeVal(q.Z[..]), zz, Prod(v.z, v.z), P());
    FeAdd(q.T, p.X, p.Y, 1, 1);
    Sq(s.T, q.T, 2);
    x2, y2, z2, s2 := FeVal(q.X[..]), FeVal(q.Y[..]), FeVal(q.Z[..]), FeVal(s.T[..]);
  }

  lemma TwiceCong(r: int, z: int, z': int, m: int)
    requires 0 < m && Cong(r, 2 * z, m) && Cong(z, z', m)
    ensures Cong(r, 2 * z', m)
  {
    CongAdd(z, z', z, z', m);
  }

  lemma DoubleCongruent(p: Point, x2: int, y2: int, z2: int, s2: int, r: Point, m: int)
    requires 0 < m && Cong(x2, Prod(p.x, p.x), m) && Cong(y2, Prod(p.y, p.y), m)
    requires Cong(z2, 2 * Prod(p.z, p.z), m) && Cong(s2, Prod(p.x + p.y, p.x + p.y), m)
    requires var t, y := y2 + x2, y2 - x2; var x, z := s2 - t, z2 - y;
             && Cong(r.x, Prod(x, z), m) && Cong(r.y, Prod(t, y), m)
             && Cong(r.z, Prod(y, z), m) && Cong(r.t, Prod(x, t), m)
    ensures SameModulo(r, DoubleFormula(p), m)
  {
    var x2', y2', z2' := Prod(p.x, p.x), Prod(p.y, p.y), 2 * Prod(p.z, p.z);
    var s2' := Prod(p.x + p.y, p.x + p.y);
    var t', y' := y2' + x2', y2' - x2';
    var x', z' := s2' - t', z2' - y';
    assert DoubleFormula(p) == Point(Prod(x', z'), Prod(t', y'), Prod(y', z'), Prod(x', t'));
    hide Prod, Cong;
    var t, y := y2 + x2, y2 - x2;
    var x, z := s2 - t, z2 - y;
    CongAdd(y2, y2', x2, x2', m);
    CongAdd(s2, s2', t, t', m);
    CongAdd(z2, z2', y, y', m);
    ProdCong(r.x, x, x', z, z', m);
    ProdCong(r.y, t, t', y, y', m);
    ProdCong(r.z, y, y', z, z', m);
    ProdCong(r.t, x, x', t, t', m);
  }

  /** Both formulas produce T * Z = X * Y, on integers. */
  lemma FormulasExtended(p: Point, q: Cached)
    ensures var r := AddFormula(p, q); r.t * r.z == r.x * r.y
    ensures var r := DoubleFormula(p); r.t * r.z == r.x * r.y
  {
    var a, b := Prod(p.y + p.x, q.yp), Prod(p.y - p.x, q.ym);
    var z, t := Prod(p.z + p.z, q.z), Prod(p.t, q.t2);
    FourFactors(a - b, a + b, z + t, z - t);
    var x2, y2, z2 := Prod(p.x, p.x), Prod(p.y, p.y), 2 * Prod(p.z, p.z);
    var s := Prod(p.x + p.y, p.x + p.y);
    var t', y' := y2 + x2, y2 - x2;
    FourFactors(s - t', t', y', z2 - y');
  }

  lemma FourFactors(d: int, h: int, g: int, f: int)
    ensures Prod(d, h) * Prod(g, f) == Prod(d, f) * Prod(h, g)
  {
  }

  /** Points congruent to a sum or a double are extended. */
  lemma SumsExtended(p: Point, q: Cached, r: Point, m: int)
    requires SameModulo(r, AddFormula(p, q), m) || SameModulo(r, DoubleFormula(p), m)
    ensures Cong(r.t * r.z, r.x * r.y, m)
  {
    FormulasExtended(p, q);
    var s := if SameModulo(r, AddFormula(p, q), m) then AddFormula(p, q) else DoubleFormula(p);
    hide AddFormula, DoubleFormula, Cong;
    CongMul(r.t, s.t, r.z, s.z, m);
    CongMul(r.x, s.x, r.y, s.y, m);
    CongTrans(r.x * r.y, s.x * s.y, s.x * s.y, m) by { CongRefl(s.x * s.y, m); }
    CongTrans(r.t * r.z, s.x * s.y, r.x * r.y, m);
  }
}
