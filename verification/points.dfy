/** Points in memory as elements of the curve's group: each point formula, run on limbs, stands for the group
    operation it implements. */
module CurvePoints {
  import opened Arith
  import opened Groups
  import opened Field25519
  import opened FieldOps
  import opened Edwards
  import opened EdwardsLaw

  /** c prepares q for an addition. */
  ghost predicate IsCached(c: Cached, q: Point) {
    && Cong(c.yp, q.y + q.x, P()) && Cong(c.ym, q.y - q.x, P()) && Cong(c.z, q.z, P())
    && Cong(c.t2, Prod(q.t, FeVal(D2())), P())
  }

  /** The group law of the curve: whenever coordinates represent group elements, the formulas represent their sums. */
  ghost predicate CurveGroup<T(!new)>(g: Group<T>, rep: (Point, T) -> bool) {
    && Abelian(g)
    && rep(Point(0, 1, 1, 0), g.zero)
    && (forall p, p', x :: rep(p, x) && SamePoint(p', p) ==> rep(p', x))
    && (forall p, x :: rep(p, x) ==> rep(DoubleFormula(p), g.add(x, x)))
    && (forall p, x, q, y, c :: rep(p, x) && rep(q, y) && IsCached(c, q) ==> rep(AddFormula(p, c), g.add(x, y)))
    && (forall p, x, q, y, c :: rep(p, x) && rep(q, y) && IsCached(c, q) ==> rep(AddFormula(p, Opposite(c)), g.add(x, g.neg(y))))
  }

  /** The neutral element is the one whose coordinates satisfy Y = Z. */
  ghost predicate Separates<T(!new)>(g: Group<T>, rep: (Point, T) -> bool) {
    forall p, x :: rep(p, x) ==>
      !Cong(p.z, 0, P()) && (x == g.zero <==> Cong(p.y, p.z, P())) && (x == g.zero ==> Cong(p.x, 0, P()))
  }

  /** A point in memory, within bounds, with T * Z = X * Y, that represents x. */
  ghost predicate Stands<T>(rep: (Point, T) -> bool, s: Ge, x: T)
    reads s.X, s.Y, s.Z, s.T
  {
    s.Shape() && s.Tidy() && Extended(s.Value()) && rep(s.Value(), x)
  }

  /** An entry of the table built for one signature: the limbs of a cached point. */
  datatype Projective = Projective(yp: seq<i32>, ym: seq<i32>, z: seq<i32>, t2: seq<i32>)

  ghost predicate Caches<T>(rep: (Point, T) -> bool, c: Projective, y: T) {
    && Grown(c.yp, 2) && Grown(c.ym, 2) && Grown(c.z, 1) && Grown(c.t2, 1)
    && exists q :: rep(q, y) && IsCached(Cached(FeVal(c.yp), FeVal(c.ym), FeVal(c.z), FeVal(c.t2)), q)
  }

  /** An entry of a constant table: a cached point with Z = 1. */
  datatype Niels = Niels(yp: seq<i32>, ym: seq<i32>, t2: seq<i32>)

  ghost predicate Precomputes<T>(rep: (Point, T) -> bool, c: Niels, y: T) {
    && Grown(c.yp, 1) && Grown(c.ym, 1) && Grown(c.t2, 1)
    && exists q :: rep(q, y) && IsCached(Cached(FeVal(c.yp), FeVal(c.ym), 1, FeVal(c.t2)), q)
  }

  lemma ZeroRep<T(!new)>(g: Group<T>, rep: (Point, T) -> bool)
    requires CurveGroup(g, rep)
    ensures rep(Point(0, 1, 1, 0), g.zero) && Abelian(g)
  {
  }

  lemma Doubled<T(!new)>(g: Group<T>, rep: (Point, T) -> bool, p: Point, x: T, r: Point)
    requires CurveGroup(g, rep) && rep(p, x) && SamePoint(r, DoubleFormula(p))
    ensures rep(r, g.add(x, x))
  {
  }

  lemma Summed<T(!new)>(g: Group<T>, rep: (Point, T) -> bool, p: Point, x: T, q: Point, y: T, c: Cached, r: Point)
    requires CurveGroup(g, rep) && rep(p, x) && rep(q, y) && IsCached(c, q) && SamePoint(r, AddFormula(p, c))
    ensures rep(r, g.add(x, y))
  {
  }

  lemma Subtracted<T(!new)>(g: Group<T>, rep: (Point, T) -> bool, p: Point, x: T, q: Point, y: T, c: Cached, r: Point)
    requires CurveGroup(g, rep) && rep(p, x) && rep(q, y) && IsCached(c, q) && SamePoint(r, AddFormula(p, Opposite(c)))
    ensures rep(r, g.add(x, g.neg(y)))
  {
  }

  method Zero<T(!new)>(s: Ge, ghost g: Group<T>, ghost rep: (Point, T) -> bool)
    requires CurveGroup(g, rep) && s.Shape()
    modifies s.X, s.Y, s.Z, s.T
    ensures Stands(rep, s, g.zero)
  {
    ZeroRep(g, rep);
    hide FeVal, Grown, CurveGroup, SamePoint, Tight;
    FeSmall(s.X, 0);
    FeSmall(s.Y, 1);
    FeSmall(s.Z, 1);
    FeSmall(s.T, 0);
    OneIsTight(s.X[..]);
    OneIsTight(s.Y[..]);
    OneIsTight(s.Z[..]);
    OneIsTight(s.T[..]);
    assert s.Value() == Point(0, 1, 1, 0);
  }

  method Double<T(!new)>(s: Ge, ghost g: Group<T>, ghost rep: (Point, T) -> bool, ghost x: T)
    requires CurveGroup(g, rep) && Stands(rep, s, x)
    modifies s.X, s.Y, s.Z, s.T
    ensures Stands(rep, s, Plus(g, x, x))
  {
    hide FeVal, Grown, CurveGroup, SameModulo, Cong, P, DoubleFormula;
    ghost var v := s.Value();
    var tmp := new Ge();
    GeDouble(s, s, tmp);
    Doubled(g, rep, v, x, s.Value());
    SumsExtended(v, Cached(0, 0, 0, 0), s.Value(), P());
  }

  /** Twice a point, in new memory. */
  method Twice<T(!new)>(p: Ge, ghost g: Group<T>, ghost rep: (Point, T) -> bool, ghost x: T) returns (r: Ge)
    requires CurveGroup(g, rep) && Stands(rep, p, x)
    ensures Stands(rep, r, Plus(g, x, x)) && fresh(r.X) && fresh(r.Y) && fresh(r.Z) && fresh(r.T)
  {
    hide FeVal, Grown, CurveGroup, SameModulo, Cong, P, DoubleFormula;
    ghost var v := p.Value();
    r := new Ge();
    var tmp := new Ge();
    GeDouble(r, p, tmp);
    Doubled(g, rep, v, x, r.Value());
    SumsExtended(v, Cached(0, 0, 0, 0), r.Value(), P());
  }

  method Cache<T(!new)>(p: Ge, ghost g: Group<T>, ghost rep: (Point, T) -> bool, ghost x: T) returns (c: Projective)
    requires CurveGroup(g, rep) && Stands(rep, p, x)
    ensures Caches(rep, c, x)
  {
    hide FeVal, Grown, CurveGroup, SamePoint, Extended, Prod, D2;
    var q := new GeCached();
    ghost var v := p.Value();
    GeCache(q, p);
    c := Projective(q.Yp[..], q.Ym[..], q.Z[..], q.T2[..]);
    assert p.Value() == v && rep(v, x) && IsCached(q.Value(), v);
  }

  method Add<T(!new)>(s: Ge, v: Projective, ghost g: Group<T>, ghost rep: (Point, T) -> bool, ghost x: T, ghost y: T)
    requires CurveGroup(g, rep) && Stands(rep, s, x) && Caches(rep, v, y)
    modifies s.X, s.Y, s.Z, s.T
    ensures Stands(rep, s, Plus(g, x, y))
  {
    hide FeVal, Grown, CurveGroup, SameModulo, Cong, P, AddFormula, IsCached;
    var q := LoadCached(rep, v, y);
    ghost var u, c := s.Value(), q.Value();
    ghost var w :| rep(w, y) && IsCached(c, w);
    GeAdd(s, s, q);
    Summed(g, rep, u, x, w, y, c, s.Value());
    SumsExtended(u, c, s.Value(), P());
  }

  method Sub<T(!new)>(s: Ge, v: Projective, ghost g: Group<T>, ghost rep: (Point, T) -> bool, ghost x: T, ghost y: T)
    requires CurveGroup(g, rep) && Stands(rep, s, x) && Caches(rep, v, y)
    modifies s.X, s.Y, s.Z, s.T
    ensures Stands(rep, s, Minus(g, x, y))
  {
    hide FeVal, Grown, CurveGroup, SameModulo, Cong, P, AddFormula, IsCached;
    var q := LoadCached(rep, v, y);
    ghost var u, c := s.Value(), q.Value();
    ghost var w :| rep(w, y) && IsCached(c, w);
    GeSub(s, s, q);
    Subtracted(g, rep, u, x, w, y, c, s.Value());
    SumsExtended(u, Opposite(c), s.Value(), P());
  }

  /** Reads a table entry. */
  method LoadCached<T>(ghost rep: (Point, T) -> bool, v: Projective, ghost y: T) returns (c: GeCached)
    requires Caches(rep, v, y)
    ensures c.Shape() && c.Tidy() && exists q :: rep(q, y) && IsCached(c.Value(), q)
    ensures fresh(c.Yp) && fresh(c.Ym) && fresh(c.Z) && fresh(c.T2)
  {
    CachedLengths(rep, v, y);
    hide FeVal, Grown, IsCached;
    c := new GeCached();
    for i := 0 to 10
      invariant forall k :: 0 <= k < i ==> c.Yp[k] == v.yp[k] && c.Ym[k] == v.ym[k] && c.Z[k] == v.z[k] && c.T2[k] == v.t2[k]
    {
      c.Yp[i], c.Ym[i], c.Z[i], c.T2[i] := v.yp[i], v.ym[i], v.z[i], v.t2[i];
    }
    assert c.Yp[..] == v.yp && c.Ym[..] == v.ym && c.Z[..] == v.z && c.T2[..] == v.t2;
  }

  lemma CachedLengths<T>(rep: (Point, T) -> bool, v: Projective, y: T)
    requires Caches(rep, v, y)
    ensures |v.yp| == |v.ym| == |v.z| == |v.t2| == 10
  {
  }

  /** Reads a table entry. */
  method Load(c: GePrecomp, v: Niels)
    requires c.Shape() && |v.yp| == |v.ym| == |v.t2| == 10
    modifies c.Yp, c.Ym, c.T2
    ensures c.Yp[..] == v.yp && c.Ym[..] == v.ym && c.T2[..] == v.t2
  {
    for i := 0 to 10
      invariant forall k :: 0 <= k < i ==> c.Yp[k] == v.yp[k] && c.Ym[k] == v.ym[k] && c.T2[k] == v.t2[k]
    {
      c.Yp[i], c.Ym[i], c.T2[i] := v.yp[i], v.ym[i], v.t2[i];
    }
  }

  method Madd<T(!new)>(s: Ge, v: Niels, ghost g: Group<T>, ghost rep: (Point, T) -> bool, ghost x: T, ghost y: T)
    requires CurveGroup(g, rep) && Stands(rep, s, x) && Precomputes(rep, v, y)
    modifies s.X, s.Y, s.Z, s.T
    ensures Stands(rep, s, Plus(g, x, y))
  {
    var q := new GePrecomp();
    TableEntry(rep, v, y);
    hide FeVal, Grown, CurveGroup, SameModulo, Cong, P, AddFormula, IsCached;
    Load(q, v);
    var a := new i32[10](_ => 0);
    var b := new i32[10](_ => 0);
    ghost var u, c := s.Value(), q.Value();
    ghost var w :| rep(w, y) && IsCached(c, w);
    GeMadd(s, s, q, a, b);
    Summed(g, rep, u, x, w, y, c, s.Value());
    SumsExtended(u, c, s.Value(), P());
  }

  method Msub<T(!new)>(s: Ge, v: Niels, ghost g: Group<T>, ghost rep: (Point, T) -> bool, ghost x: T, ghost y: T)
    requires CurveGroup(g, rep) && Stands(rep, s, x) && Precomputes(rep, v, y)
    modifies s.X, s.Y, s.Z, s.T
    ensures Stands(rep, s, Minus(g, x, y))
  {
    var q := new GePrecomp();
    TableEntry(rep, v, y);
    hide FeVal, Grown, CurveGroup, SameModulo, Cong, P, AddFormula, IsCached;
    Load(q, v);
    var a := new i32[10](_ => 0);
    var b := new i32[10](_ => 0);
    ghost var u, c := s.Value(), q.Value();
    ghost var w :| rep(w, y) && IsCached(c, w);
    GeMsub(s, s, q, a, b);
    Subtracted(g, rep, u, x, w, y, c, s.Value());
    SumsExtended(u, Opposite(c), s.Value(), P());
  }

  lemma TableEntry<T>(rep: (Point, T) -> bool, v: Niels, y: T)
    requires Precomputes(rep, v, y)
    ensures |v.yp| == |v.ym| == |v.t2| == 10
  {
  }

  // Without any hypothesis

  /** The group of one element, which every point represents. What the ladders prove of it is what they keep for all
      points whatever: the limb bounds and T * Z = X * Y. */
  function One(): Group<()> {
    Group((), (_, _) => (), _ => ())
  }

  function Any(): (Point, ()) -> bool {
    (_, _) => true
  }

  lemma AnyPoint()
    ensures CurveGroup(One(), Any())
  {
    hide SamePoint, DoubleFormula, AddFormula, IsCached;
    forall x: () ensures One().add(One().zero, x) == x {
    }
  }

  /** The limbs of a table entry are as tight as a product leaves them. */
  ghost predicate TightEntry(c: Niels) {
    Grown(c.yp, 1) && Grown(c.ym, 1) && Grown(c.t2, 1)
  }

  /** 1 / D2. */
  function InverseD2(): int {
    0x60483f690a6ae721958b108a66dce7b305aeeb4c213caa1712f0793b66e4fc18
  }

  lemma Inverses()
    ensures Cong(2 * 0x3ffffffffffffffffffffffffffffffffffffffffffffffffffffffffffffff7, 1, P())
    ensures Cong(FeVal(D2()) * InverseD2(), 1, P())
  {
    CongIntro(2 * 0x3ffffffffffffffffffffffffffffffffffffffffffffffffffffffffffffff7, 1, 1, P());
    var f := D2();
    assert W(2) == 0x8_0000_0000_0000 && W(4) == 0x40_0000_0000_0000_0000_0000_0000;
    assert W(6) == 0x200_0000_0000_0000_0000_0000_0000_0000_0000_0000;
    assert W(8) == 0x1000_0000_0000_0000_0000_0000_0000_0000_0000_0000_0000_0000_0000;
    TenTerms(f);
    assert FeVal(f) == 0x2406d9dc56dffce7198e80f2eef3d13000e0149a8283b156ebd69b9426b2f159;
    CongIntro(FeVal(f) * InverseD2(), 1, 0x1b197918bce0a4ec89a8d38ed5bc515b50052c1a9634682e00591ca14e55fcd3, P());
  }

  /** The point of which two sums and a product are given. */
  lemma Uncached(yp: int, ym: int, t2: int, d2: int, half: int, inverse: int, m: int) returns (q: Point)
    requires 0 < m && Cong(2 * half, 1, m) && Cong(d2 * inverse, 1, m)
    ensures Cong(yp, q.y + q.x, m) && Cong(ym, q.y - q.x, m) && q.z == 1 && Cong(t2, Prod(q.t, d2), m)
  {
    q := Point((yp - ym) * half, (yp + ym) * half, 1, t2 * inverse);
    hide Cong;
    assert q.y + q.x == yp * (2 * half) && q.y - q.x == ym * (2 * half) && q.t * d2 == t2 * (d2 * inverse);
    Scaled(yp, 2 * half, m);
    Scaled(ym, 2 * half, m);
    Scaled(t2, d2 * inverse, m);
  }

  lemma Scaled(x: int, u: int, m: int)
    requires 0 < m && Cong(u, 1, m)
    ensures Cong(x, x * u, m)
  {
    CongRefl(x, m);
    CongMul(x, x, u, 1, m);
    CongTrans(x * u, x * 1, x, m);
  }

  /** Every entry of tight limbs is a cached point of some coordinates, since 2 and D2 are invertible. */
  lemma AnyEntry(c: Niels)
    requires TightEntry(c)
    ensures Precomputes(Any(), c, ())
  {
    GrownLength(c.yp, 1);
    GrownLength(c.ym, 1);
    GrownLength(c.t2, 1);
    hide Cong, FeVal, Grown, Prod, P, InverseD2, D2;
    Inverses();
    var q := Uncached(FeVal(c.yp), FeVal(c.ym), FeVal(c.t2), FeVal(D2()),
                      0x3ffffffffffffffffffffffffffffffffffffffffffffffffffffffffffffff7, InverseD2(), P());
    CongRefl(1, P());
    assert Any()(q, ()) && IsCached(Cached(FeVal(c.yp), FeVal(c.ym), 1, FeVal(c.t2)), q);
  }

  /** The limbs of a cached point are as sums and products leave them. */
  ghost predicate TightCached(c: Projective) {
    Grown(c.yp, 2) && Grown(c.ym, 2) && Grown(c.z, 1) && Grown(c.t2, 1)
  }

  lemma AnyCached(c: Projective)
    requires TightCached(c)
    ensures Caches(Any(), c, ())
  {
    GrownLength(c.yp, 2);
    GrownLength(c.ym, 2);
    GrownLength(c.z, 1);
    GrownLength(c.t2, 1);
    hide Cong, FeVal, Grown, Prod, P, InverseD2, D2;
    Inverses();
    var p := Uncached(FeVal(c.yp), FeVal(c.ym), FeVal(c.t2), FeVal(D2()),
                      0x3ffffffffffffffffffffffffffffffffffffffffffffffffffffffffffffff7, InverseD2(), P());
    var q := p.(z := FeVal(c.z));
    CongRefl(q.z, P());
    assert Any()(q, ()) && IsCached(Cached(FeVal(c.yp), FeVal(c.ym), FeVal(c.z), FeVal(c.t2)), q);
  }

  /** A constant table of eight entries, of which nothing is known but that their limbs are tight. */
  ghost predicate TightTable(table: seq<Niels>) {
    |table| == 8 && forall j :: 0 <= j < 8 ==> TightEntry(table[j])
  }

  lemma OneElement(x: ())
    ensures x == ()
  {
  }

  /** A point in memory, within bounds, with T * Z = X * Y. */
  ghost predicate Bounded(s: Ge)
    reads s.X, s.Y, s.Z, s.T
  {
    s.Shape() && s.Tidy() && Extended(s.Value())
  }

  lemma AnyStands(s: Ge)
    ensures Stands(Any(), s, ()) <==> Bounded(s)
  {
    assert Any()(Point(0, 0, 0, 0), ());
  }
}
