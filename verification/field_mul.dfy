/** Products in the field modulo 2^255 - 19: the ten columns of the limb product, and why they
    denote the product of the two elements. */
module FieldMul {
  import opened Arith
  import opened Field25519

  /** What the product of limbs i and j counts in column (i + j) mod 10: twice when both positions
      were rounded up, and 19 times when the product wraps past 2^255. */
  function C(i: nat, j: nat): nat {
    if i + j >= 10 then Rounded(i, j) * 19 else Rounded(i, j)
  }

  /** Two when both weights were rounded up. */
  function Rounded(i: nat, j: nat): nat {
    if i % 2 == 1 && j % 2 == 1 then 2 else 1
  }

  /** The contribution of limbs x and y, at positions i and j, to their column. */
  function Term(x: int, i: nat, y: int, j: nat): int {
    x * (C(i, j) * y)
  }

  /** Column k of the product of the first n limbs of f with g. */
  function Column(f: seq<int>, g: seq<int>, n: nat, k: nat): int
    requires |f| == |g| == 10 && n <= 10 && k < 10
  {
    if n == 0 then 0
    else Column(f, g, n - 1, k) + Term(f[n - 1], n - 1, g[(k - (n - 1)) % 10], (k - (n - 1)) % 10)
  }

  lemma {:induction false} WExact(i: nat, j: nat)
    ensures W(i) * W(j) == Rounded(i, j) * W(i + j)
    decreases i
  {
    if i == 0 {
    } else if i == 1 {
      assert W(1) == 0x400_0000;
      assert W(1 + j) == Radix(j) * W(j);
    } else {
      WExact(i - 2, j);
      assert W(i) == 0x8_0000_0000_0000 * W(i - 2) by { TwoSteps(i - 2); }
      assert W(i + j) == 0x8_0000_0000_0000 * W(i + j - 2) by { TwoSteps(i + j - 2); }
      MulAssoc(0x8_0000_0000_0000, W(i - 2), W(j));
    }
  }

  lemma TwoSteps(i: nat)
    ensures W(i + 2) == 0x8_0000_0000_0000 * W(i)
  {
  }

  /** Ten limbs up is 2^255, which is 19 in the field. */
  lemma WMul(i: nat, j: nat)
    requires i < 10 && j < 10
    ensures Cong(W(i) * W(j), C(i, j) * W((i + j) % 10), P())
  {
    hide *;
    var c := Rounded(i, j);
    WhichColumn(i, j);
    if i + j < 10 {
      WExact(i, j);
      CongIntro(W(i) * W(j), C(i, j) * W(i + j), 0, P());
    } else {
      var k := i + j - 10;
      WExact(i, j);
      WExact(10, k);
      TopWeight();
      Wrap(c, W(k), P());
      CongIntro(c * ((P() + 19) * W(k)), (c * 19) * W(k), c * W(k), P());
    }
  }

  lemma WhichColumn(i: nat, j: nat)
    requires i < 10 && j < 10
    ensures i + j < 10 ==> C(i, j) == Rounded(i, j) && (i + j) % 10 == i + j
    ensures i + j >= 10 ==> C(i, j) == Rounded(i, j) * 19 && (i + j) % 10 == i + j - 10 && Rounded(10, i + j - 10) == 1
  {
  }

  lemma Wrap(c: int, w: int, p: int)
    ensures c * ((p + 19) * w) == (c * 19) * w + (c * w) * p
  {
  }

  /** The columns when limb n of f has met the first m limbs of g. */
  function Partial(f: seq<int>, g: seq<int>, n: nat, m: nat): (t: seq<int>)
    requires |f| == |g| == 10 && n < 10 && m <= 10
    ensures |t| == 10
  {
    seq(10, k requires 0 <= k < 10 => Column(f, g, n, k) +
      (if (k - n) % 10 < m then Term(f[n], n, g[(k - n) % 10], (k - n) % 10) else 0))
  }

  function Columns(f: seq<int>, g: seq<int>, n: nat): (t: seq<int>)
    requires |f| == |g| == 10 && n <= 10
    ensures |t| == 10
  {
    seq(10, k requires 0 <= k < 10 => Column(f, g, n, k))
  }

  lemma PartialStep(f: seq<int>, g: seq<int>, n: nat, m: nat)
    requires |f| == |g| == 10 && n < 10 && m < 10
    ensures FeVal(Partial(f, g, n, m + 1))
         == FeVal(Partial(f, g, n, m)) + W((n + m) % 10) * Term(f[n], n, g[m], m)
  {
    var k := (n + m) % 10;
    var t, u := Partial(f, g, n, m), Partial(f, g, n, m + 1);
    ColumnOf(n, m, k);
    assert u[k] == t[k] + Term(f[n], n, g[m], m);
    assert u == t[k := u[k]] by {
      forall j | 0 <= j < 10
        ensures j != k ==> u[j] == t[j]
      {
        ColumnOf(n, m, j);
      }
    }
    hide *;
    SumUpdate(t, k, u[k], 10);
    FeValIs(t);
    FeValIs(u);
  }

  lemma FeValIs(t: seq<int>)
    requires |t| == 10
    ensures FeVal(t) == Sum(t, 10)
  {
  }

  /** Limb m of g meets limb n of f in one column only. */
  lemma ColumnOf(n: nat, m: nat, k: nat)
    requires n < 10 && m < 10 && k < 10
    ensures (k - n) % 10 == m <==> k == (n + m) % 10
  {
  }

  /** One row: f[n] times all of g, reduced. */
  lemma {:induction false} RowVal(f: seq<int>, g: seq<int>, n: nat, m: nat)
    requires |f| == |g| == 10 && n < 10 && m <= 10
    ensures Cong(FeVal(Partial(f, g, n, m)), FeVal(Columns(f, g, n)) + W(n) * f[n] * Sum(g, m), P())
  {
    hide *;
    if m == 0 {
      RowStart(f, g, n);
      CongRefl(FeVal(Columns(f, g, n)), P());
    } else {
      RowVal(f, g, n, m - 1);
      PartialStep(f, g, n, m - 1);
      RowTerm(f[n], g[m - 1], n, m - 1);
      SumNext(g, m);
      RowGlue(FeVal(Partial(f, g, n, m)), FeVal(Partial(f, g, n, m - 1)),
              W((n + (m - 1)) % 10) * Term(f[n], n, g[m - 1], m - 1),
              FeVal(Columns(f, g, n)), W(n) * f[n], Sum(g, m - 1), W(m - 1) * g[m - 1], Sum(g, m), P());
    }
  }

  lemma RowStart(f: seq<int>, g: seq<int>, n: nat)
    requires |f| == |g| == 10 && n < 10
    ensures Partial(f, g, n, 0) == Columns(f, g, n) && Sum(g, 0) == 0
  {
  }

  lemma SumNext(g: seq<int>, m: nat)
    requires 0 < m <= |g|
    ensures Sum(g, m) == Sum(g, m - 1) + W(m - 1) * g[m - 1]
  {
  }

  lemma RowGlue(v: int, u: int, t: int, base: int, x: int, a: int, b: int, s: int, p: int)
    requires 0 < p && s == a + b && v == u + t
    requires Cong(u, base + x * a, p) && Cong(t, x * b, p)
    ensures Cong(v, base + x * s, p)
  {
    hide *;
    MulDistr(x, a, b);
    CongAdd(u, base + x * a, t, x * b, p);
    assert base + x * s == (base + x * a) + x * b;
  }

  lemma RowTerm(x: int, y: int, i: nat, j: nat)
    requires i < 10 && j < 10
    ensures Cong(W((i + j) % 10) * Term(x, i, y, j), W(i) * x * (W(j) * y), P())
  {
    assert Term(x, i, y, j) == x * (C(i, j) * y);
    hide *;
    var w, c, p := W((i + j) % 10), C(i, j), P();
    WMul(i, j);
    CongIntro(x * y, x * y, 0, p);
    CongMul(W(i) * W(j), c * w, x * y, x * y, p);
    Mix(W(i), W(j), x, y);
    Mix(c, w, x, y);
    Mix2(c, w, x, y);
    CongTrans((c * w) * (x * y), (W(i) * W(j)) * (x * y), (W(i) * W(j)) * (x * y), p);
  }

  lemma Mix(a: int, b: int, x: int, y: int)
    ensures (a * b) * (x * y) == a * x * (b * y)
  {
  }

  lemma Mix2(c: int, w: int, x: int, y: int)
    ensures (c * w) * (x * y) == w * (x * (c * y))
  {
  }

  lemma NextRow(f: seq<int>, g: seq<int>, n: nat)
    requires |f| == |g| == 10 && n < 10
    ensures Partial(f, g, n, 10) == Columns(f, g, n + 1)
  {
  }

  /** The columns denote the product, row by row. */
  lemma {:induction false} ColumnsVal(f: seq<int>, g: seq<int>, n: nat)
    requires |f| == |g| == 10 && n <= 10
    ensures Cong(FeVal(Columns(f, g, n)), Sum(f, n) * FeVal(g), P())
  {
    hide *;
    if n == 0 {
      NoColumns(f, g);
    } else {
      ColumnsVal(f, g, n - 1);
      RowVal(f, g, n - 1, 10);
      NextRow(f, g, n - 1);
      NextSum(f, g, n);
      OneMore(FeVal(Columns(f, g, n)), FeVal(Columns(f, g, n - 1)), Sum(f, n - 1), W(n - 1) * f[n - 1], FeVal(g), P());
    }
  }

  lemma OneMore(x: int, y: int, a: int, b: int, v: int, m: int)
    requires 0 < m && Cong(y, a * v, m) && Cong(x, y + b * v, m)
    ensures Cong(x, (a + b) * v, m)
  {
    hide *;
    RightDistr(a, b, v);
    CongRefl(b * v, m);
    CongAdd(y, a * v, b * v, b * v, m);
    CongTrans(x, y + b * v, a * v + b * v, m);
  }

  lemma NoColumns(f: seq<int>, g: seq<int>)
    requires |f| == |g| == 10
    ensures Cong(FeVal(Columns(f, g, 0)), Sum(f, 0) * FeVal(g), P())
  {
    ZeroSum(Columns(f, g, 0), 10);
    hide P;
  }

  lemma NextSum(f: seq<int>, g: seq<int>, n: nat)
    requires |f| == |g| == 10 && 0 < n <= 10
    ensures Sum(f, n) == Sum(f, n - 1) + W(n - 1) * f[n - 1] && Sum(g, 10) == FeVal(g)
  {
  }

  lemma RightDistr(a: int, b: int, v: int)
    ensures (a + b) * v == a * v + b * v
  {
  }

  lemma {:induction false} ZeroSum(t: seq<int>, n: nat)
    requires n <= |t| && forall k :: 0 <= k < n ==> t[k] == 0
    ensures Sum(t, n) == 0
  {
    if n == 0 {
    } else {
      ZeroSum(t, n - 1);
    }
  }

  /** The sum of the first n products, added from the left. At most ten products within 2^58, or
      six within 2^59, so every partial sum fits 64 bits with room to spare. */
  function Dot(a: seq<i32>, b: seq<i32>, n: nat, ghost wide: bool): (t: i64)
    requires n <= |a| && n <= |b| && n <= (if wide then 6 else 10)
    requires forall i :: 0 <= i < n ==> Product(a[i], b[i], wide)
    ensures if wide then -0x800_0000_0000_0000 * n <= t <= 0x800_0000_0000_0000 * n
            else -0x400_0000_0000_0000 * n <= t <= 0x400_0000_0000_0000 * n
  {
    if n == 0 then 0 else Dot(a, b, n - 1, wide) + Times(a[n - 1], b[n - 1], wide)
  }

  function Times(x: i32, y: i32, ghost wide: bool): (p: i64)
    requires Product(x, y, wide)
    ensures p == x as int * y as int
  {
    x as int * y as int
  }

  ghost predicate Product(x: i32, y: i32, wide: bool) {
    if wide then -0x800_0000_0000_0000 <= x * y <= 0x800_0000_0000_0000
    else -0x400_0000_0000_0000 <= x * y <= 0x400_0000_0000_0000
  }

  /** The operands of column k: limbs of f doubled where both weights were rounded up, limbs of g
      times 19 where the product wraps. */
  ghost predicate Operands(a: seq<int>, b: seq<int>, f: seq<int>, g: seq<int>, k: nat)
    requires |f| == |g| == 10 && k < 10
  {
    |a| == |b| == 10 && forall i :: 0 <= i < 10 ==>
      && a[i] == (if i % 2 == 1 && k % 2 == 0 then f[i] * 2 else f[i])
      && b[i] == (if i <= k then g[k - i] else g[k - i + 10] * 19)
  }

  lemma {:induction false} DotIsColumn(a: seq<i32>, b: seq<i32>, f: seq<int>, g: seq<int>, n: nat, k: nat)
    requires |f| == |g| == 10 && k < 10 && n <= 10 && Operands(a, b, f, g, k)
    requires forall i :: 0 <= i < n ==> Product(a[i], b[i], false)
    ensures Dot(a, b, n, false) == Column(f, g, n, k)
  {
    if n == 0 {
    } else {
      DotIsColumn(a, b, f, g, n - 1, k);
      OperandTerm(a[n - 1], b[n - 1], f, g, n - 1, k);
    }
  }

  lemma OperandTerm(x: int, y: int, f: seq<int>, g: seq<int>, i: nat, k: nat)
    requires |f| == |g| == 10 && k < 10 && i < 10
    requires x == (if i % 2 == 1 && k % 2 == 0 then f[i] * 2 else f[i])
    requires y == (if i <= k then g[k - i] else g[k - i + 10] * 19)
    ensures x * y == Term(f[i], i, g[(k - i) % 10], (k - i) % 10)
  {
    var j := (k - i) % 10;
    assert j == if i <= k then k - i else k - i + 10;
    var c, d := Rounded(i, j), if i <= k then 1 else 19;
    assert x == f[i] * c && y == g[j] * d && C(i, j) == c * d;
    Coefficients(f[i], c, g[j], d);
  }

  lemma Coefficients(x: int, c: int, y: int, d: int)
    ensures (x * c) * (y * d) == x * ((c * d) * y)
  {
  }

  lemma ProductFits(x: i32, y: i32)
    requires -110729625 <= x <= 110729625 && -2103862875 <= y <= 2103862875
    ensures Product(x, y, false)
  {
    AbsBound(x, y, 110729625, 2103862875);
  }

  lemma AbsBound(x: int, y: int, a: int, b: int)
    requires -a <= x <= a && -b <= y <= b
    ensures -(a * b) <= x * y <= a * b
  {
  }

  /** One 64-bit column of the limb product. */
  method Column64(a: seq<i32>, b: seq<i32>, ghost f: seq<int>, ghost g: seq<int>, ghost k: nat) returns (t: i64)
    requires Loose(f) && Loose(g) && k < 10 && Operands(a, b, f, g, k)
    ensures t == Column(f, g, 10, k) && Wide(t)
  {
    forall i | 0 <= i < 10
      ensures Product(a[i], b[i], false)
    {
      ProductFits(a[i], b[i]);
    }
    DotIsColumn(a, b, f, g, 10, k);
    t := Dot(a, b, 10, false);
  }

  /** The limbs the source precomputes: F doubles the odd limbs of f, G multiplies g by 19. */
  ghost predicate Scaled(f: seq<int>, F: seq<int>, g: seq<int>, G: seq<int>) {
    && |f| == |F| == |g| == |G| == 10
    && (forall i :: 0 <= i < 10 && i % 2 == 1 ==> F[i] == f[i] * 2)
    && (forall i :: 1 <= i < 10 ==> G[i] == g[i] * 19)
  }

  ghost predicate Wide(t: int) {
    -0x4000_0000_0000_0000 <= t <= 0x4000_0000_0000_0000
  }

  method MulColumns01(f: seq<i32>, F: seq<i32>, g: seq<i32>, G: seq<i32>) returns (t0: i64, t1: i64)
    requires Loose(f) && Loose(g) && Scaled(f, F, g, G)
    ensures t0 == Column(f, g, 10, 0) && Wide(t0)
    ensures t1 == Column(f, g, 10, 1) && Wide(t1)
  {
    hide Column, Loose, Wide;
    t0 := Column64([f[0], F[1], f[2], F[3], f[4], F[5], f[6], F[7], f[8], F[9]],
                   [g[0], G[9], G[8], G[7], G[6], G[5], G[4], G[3], G[2], G[1]], f, g, 0);
    t1 := Column64([f[0], f[1], f[2], f[3], f[4], f[5], f[6], f[7], f[8], f[9]],
                   [g[1], g[0], G[9], G[8], G[7], G[6], G[5], G[4], G[3], G[2]], f, g, 1);
  }

  method MulColumns23(f: seq<i32>, F: seq<i32>, g: seq<i32>, G: seq<i32>) returns (t2: i64, t3: i64)
    requires Loose(f) && Loose(g) && Scaled(f, F, g, G)
    ensures t2 == Column(f, g, 10, 2) && Wide(t2)
    ensures t3 == Column(f, g, 10, 3) && Wide(t3)
  {
    hide Column, Loose, Wide;
    t2 := Column64([f[0], F[1], f[2], F[3], f[4], F[5], f[6], F[7], f[8], F[9]],
                   [g[2], g[1], g[0], G[9], G[8], G[7], G[6], G[5], G[4], G[3]], f, g, 2);
    t3 := Column64([f[0], f[1], f[2], f[3], f[4], f[5], f[6], f[7], f[8], f[9]],
                   [g[3], g[2], g[1], g[0], G[9], G[8], G[7], G[6], G[5], G[4]], f, g, 3);
  }

  method MulColumns45(f: seq<i32>, F: seq<i32>, g: seq<i32>, G: seq<i32>) returns (t4: i64, t5: i64)
    requires Loose(f) && Loose(g) && Scaled(f, F, g, G)
    ensures t4 == Column(f, g, 10, 4) && Wide(t4)
    ensures t5 == Column(f, g, 10, 5) && Wide(t5)
  {
    hide Column, Loose, Wide;
    t4 := Column64([f[0], F[1], f[2], F[3], f[4], F[5], f[6], F[7], f[8], F[9]],
                   [g[4], g[3], g[2], g[1], g[0], G[9], G[8], G[7], G[6], G[5]], f, g, 4);
    t5 := Column64([f[0], f[1], f[2], f[3], f[4], f[5], f[6], f[7], f[8], f[9]],
                   [g[5], g[4], g[3], g[2], g[1], g[0], G[9], G[8], G[7], G[6]], f, g, 5);
  }

  method MulColumns67(f: seq<i32>, F: seq<i32>, g: seq<i32>, G: seq<i32>) returns (t6: i64, t7: i64)
    requires Loose(f) && Loose(g) && Scaled(f, F, g, G)
    ensures t6 == Column(f, g, 10, 6) && Wide(t6)
    ensures t7 == Column(f, g, 10, 7) && Wide(t7)
  {
    hide Column, Loose, Wide;
    t6 := Column64([f[0], F[1], f[2], F[3], f[4], F[5], f[6], F[7], f[8], F[9]],
                   [g[6], g[5], g[4], g[3], g[2], g[1], g[0], G[9], G[8], G[7]], f, g, 6);
    t7 := Column64([f[0], f[1], f[2], f[3], f[4], f[5], f[6], f[7], f[8], f[9]],
                   [g[7], g[6], g[5], g[4], g[3], g[2], g[1], g[0], G[9], G[8]], f, g, 7);
  }

  method MulColumns89(f: seq<i32>, F: seq<i32>, g: seq<i32>, G: seq<i32>) returns (t8: i64, t9: i64)
    requires Loose(f) && Loose(g) && Scaled(f, F, g, G)
    ensures t8 == Column(f, g, 10, 8) && Wide(t8)
    ensures t9 == Column(f, g, 10, 9) && Wide(t9)
  {
    hide Column, Loose, Wide;
    t8 := Column64([f[0], F[1], f[2], F[3], f[4], F[5], f[6], F[7], f[8], F[9]],
                   [g[8], g[7], g[6], g[5], g[4], g[3], g[2], g[1], g[0], G[9]], f, g, 8);
    t9 := Column64([f[0], f[1], f[2], f[3], f[4], f[5], f[6], f[7], f[8], f[9]],
                   [g[9], g[8], g[7], g[6], g[5], g[4], g[3], g[2], g[1], g[0]], f, g, 9);
  }

  /** h = f * g. The three may be the same element. */
  method FeMul(h: array<i32>, f: array<i32>, g: array<i32>)
    requires h.Length == f.Length == g.Length == 10 && Loose(f[..]) && Loose(g[..])
    modifies h
    ensures h[..] == Carried(Columns(old(f[..]), old(g[..]), 10)) && Tight(h[..])
    ensures Cong(FeVal(h[..]), FeVal(old(f[..])) * FeVal(old(g[..])), P())
  {
    var a, b := f[..], g[..];
    LooseProducts(a, b);
    var F: seq<i32> := [0, a[1] * 2, 0, a[3] * 2, 0, a[5] * 2, 0, a[7] * 2, 0, a[9] * 2];
    var G: seq<i32> := [0, b[1] * 19, b[2] * 19, b[3] * 19, b[4] * 19,
                        b[5] * 19, b[6] * 19, b[7] * 19, b[8] * 19, b[9] * 19];
    assert Scaled(a, F, b, G);
    hide *;
    var t0, t1 := MulColumns01(a, F, b, G);
    var t2, t3 := MulColumns23(a, F, b, G);
    var t4, t5 := MulColumns45(a, F, b, G);
    var t6, t7 := MulColumns67(a, F, b, G);
    var t8, t9 := MulColumns89(a, F, b, G);
    var t := [t0, t1, t2, t3, t4, t5, t6, t7, t8, t9];
    ColumnsAre(a, b, t);
    ColumnsVal(a, b, 10);
    FeCarry(h, t);
  }

  lemma ColumnsAre(f: seq<int>, g: seq<int>, t: seq<int>)
    requires |f| == |g| == |t| == 10
    requires t[0] == Column(f, g, 10, 0) && t[1] == Column(f, g, 10, 1) && t[2] == Column(f, g, 10, 2) && t[3] == Column(f, g, 10, 3)
    requires t[4] == Column(f, g, 10, 4) && t[5] == Column(f, g, 10, 5) && t[6] == Column(f, g, 10, 6) && t[7] == Column(f, g, 10, 7)
    requires t[8] == Column(f, g, 10, 8) && t[9] == Column(f, g, 10, 9)
    requires Wide(t[0]) && Wide(t[1]) && Wide(t[2]) && Wide(t[3]) && Wide(t[4])
    requires Wide(t[5]) && Wide(t[6]) && Wide(t[7]) && Wide(t[8]) && Wide(t[9])
    ensures t == Columns(f, g, 10) && Carriable(t)
  {
    hide Column;
  }

  /** The precomputed multiples fit. */
  lemma LooseProducts(f: seq<int>, g: seq<int>)
    requires Loose(f) && Loose(g)
    ensures |f| == |g| == 10
    ensures forall i :: 0 <= i < 10 && i % 2 == 1 ==> -0x8000_0000 <= f[i] * 2 < 0x8000_0000
    ensures forall i :: 0 <= i < 10 ==> -0x8000_0000 <= g[i] * 19 < 0x8000_0000
  {
  }
}
