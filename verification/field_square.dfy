/** Squaring in the field: half the products, and the same limbs as the general product. */
module FieldSquare {
  import opened Arith
  import opened Field25519
  import opened FieldMul

  /** The limbs the source precomputes: d doubles limbs 0 to 7; m multiplies limbs 5, 7, 9 by 38
      and limbs 6, 8 by 19. */
  ghost predicate Scaled(f: seq<int>, d: seq<int>, m: seq<int>) {
    && |f| == |d| == |m| == 10
    && (forall i :: 0 <= i < 8 ==> d[i] == f[i] * 2)
    && (forall i :: 5 <= i < 10 ==> m[i] == f[i] * (if i % 2 == 1 then 38 else 19))
  }

  /** Five or six products within 2^59, summed from the left. */
  method Dot64(a: seq<i32>, b: seq<i32>) returns (t: i64)
    requires 5 <= |a| == |b| <= 6
    requires forall i :: 0 <= i < |a| ==> -221459250 <= a[i] <= 221459250 && -2103862875 <= b[i] <= 2103862875
    ensures Wide(t)
    ensures t == Prod(a[0], b[0]) + Prod(a[1], b[1]) + Prod(a[2], b[2])
               + Prod(a[3], b[3]) + Prod(a[4], b[4])
               + (if |a| == 6 then Prod(a[5], b[5]) else 0)
  {
    forall i | 0 <= i < |a|
      ensures Product(a[i], b[i], true)
    {
      AbsBound(a[i], b[i], 221459250, 2103862875);
    }
    hide Product;
    assert Dot(a, b, 1, true) == Times(a[0], b[0], true);
    assert Dot(a, b, 3, true) == Dot(a, b, 1, true) + Times(a[1], b[1], true) + Times(a[2], b[2], true);
    assert Dot(a, b, 5, true) == Dot(a, b, 3, true) + Times(a[3], b[3], true) + Times(a[4], b[4], true);
    t := Dot(a, b, |a|, true);
  }

  /** Column k of the product, written out. */
  lemma ColumnTerms(f: seq<int>, k: nat)
    requires |f| == 10 && k < 10
    ensures Column(f, f, 10, k) == T(f, 0, k) + T(f, 1, k) + T(f, 2, k) + T(f, 3, k) + T(f, 4, k)
                                 + T(f, 5, k) + T(f, 6, k) + T(f, 7, k) + T(f, 8, k) + T(f, 9, k)
  {
    assert Column(f, f, 1, k) == T(f, 0, k);
    assert Column(f, f, 2, k) == Column(f, f, 1, k) + T(f, 1, k);
    assert Column(f, f, 4, k) == Column(f, f, 2, k) + T(f, 2, k) + T(f, 3, k);
    assert Column(f, f, 6, k) == Column(f, f, 4, k) + T(f, 4, k) + T(f, 5, k);
    assert Column(f, f, 8, k) == Column(f, f, 6, k) + T(f, 6, k) + T(f, 7, k);
  }

  function T(f: seq<int>, i: nat, k: nat): int
    requires |f| == 10 && i < 10 && k < 10
  {
    Term(f[i], i, f[(k - i) % 10], (k - i) % 10)
  }

  /** Two column entries that are one product of the square. */
  lemma Pair(f: seq<int>, i: nat, c: int, j: nat, e: int, x: int, y: int)
    requires |f| == 10 && i < 10 && j < 10 && i != j && c * e == 2 * C(i, j)
    requires x == f[i] * c && y == f[j] * e
    ensures Prod(x, y) == T(f, i, (i + j) % 10) + T(f, j, (i + j) % 10)
  {
    hide *;
    Plain(x, y);
    Entry(f, i, j);
    Entry(f, j, i);
    Symmetric(i, j);
    Coefficients(f[i], c, f[j], e);
    Doubled(f[i], C(i, j), f[j]);
  }

  lemma Plain(x: int, y: int)
    ensures Prod(x, y) == x * y
  {
  }

  lemma Entry(f: seq<int>, i: nat, j: nat)
    requires |f| == 10 && i < 10 && j < 10
    ensures T(f, i, (i + j) % 10) == f[i] * (C(i, j) * f[j])
  {
    assert ((i + j) % 10 - i) % 10 == j;
  }

  lemma Symmetric(i: nat, j: nat)
    ensures C(i, j) == C(j, i) && (i + j) % 10 == (j + i) % 10
  {
  }

  lemma Doubled(x: int, c: int, y: int)
    ensures x * ((2 * c) * y) == x * (c * y) + y * (c * x)
  {
  }

  /** The entry of a limb with itself. */
  lemma Self(f: seq<int>, i: nat, c: int, e: int, x: int, y: int)
    requires |f| == 10 && i < 10 && c * e == C(i, i) && x == f[i] * c && y == f[i] * e
    ensures Prod(x, y) == T(f, i, (2 * i) % 10)
  {
    Entry(f, i, i);
    hide T;
    Coefficients(f[i], c, f[i], e);
  }

  /** Column 0 of the square. */
  method SqColumn0(f: seq<i32>, d: seq<i32>, m: seq<i32>) returns (t: i64)
    requires Loose(f) && Scaled(f, d, m)
    ensures t == Column(f, f, 10, 0) && Wide(t)
  {
    hide T, Column, Prod;
    t := Dot64([f[0], d[1], d[2], d[3], d[4], f[5]], [f[0], m[9], m[8], m[7], m[6], m[5]]);
    ColumnTerms(f, 0);
    Self(f, 0, 1, 1, f[0], f[0]);
    Pair(f, 1, 2, 9, 38, d[1], m[9]);
    Pair(f, 2, 2, 8, 19, d[2], m[8]);
    Pair(f, 3, 2, 7, 38, d[3], m[7]);
    Pair(f, 4, 2, 6, 19, d[4], m[6]);
    Self(f, 5, 1, 38, f[5], m[5]);
  }

  /** Column 1 of the square. */
  method SqColumn1(f: seq<i32>, d: seq<i32>, m: seq<i32>) returns (t: i64)
    requires Loose(f) && Scaled(f, d, m)
    ensures t == Column(f, f, 10, 1) && Wide(t)
  {
    hide T, Column, Prod;
    t := Dot64([d[0], f[2], d[3], f[4], d[5]], [f[1], m[9], m[8], m[7], m[6]]);
    ColumnTerms(f, 1);
    Pair(f, 0, 2, 1, 1, d[0], f[1]);
    Pair(f, 2, 1, 9, 38, f[2], m[9]);
    Pair(f, 3, 2, 8, 19, d[3], m[8]);
    Pair(f, 4, 1, 7, 38, f[4], m[7]);
    Pair(f, 5, 2, 6, 19, d[5], m[6]);
  }

  /** Column 2 of the square. */
  method SqColumn2(f: seq<i32>, d: seq<i32>, m: seq<i32>) returns (t: i64)
    requires Loose(f) && Scaled(f, d, m)
    ensures t == Column(f, f, 10, 2) && Wide(t)
  {
    hide T, Column, Prod;
    t := Dot64([d[0], d[1], d[3], d[4], d[5], f[6]], [f[2], f[1], m[9], m[8], m[7], m[6]]);
    ColumnTerms(f, 2);
    Pair(f, 0, 2, 2, 1, d[0], f[2]);
    Self(f, 1, 2, 1, d[1], f[1]);
    Pair(f, 3, 2, 9, 38, d[3], m[9]);
    Pair(f, 4, 2, 8, 19, d[4], m[8]);
    Pair(f, 5, 2, 7, 38, d[5], m[7]);
    Self(f, 6, 1, 19, f[6], m[6]);
  }

  /** Column 3 of the square. */
  method SqColumn3(f: seq<i32>, d: seq<i32>, m: seq<i32>) returns (t: i64)
    requires Loose(f) && Scaled(f, d, m)
    ensures t == Column(f, f, 10, 3) && Wide(t)
  {
    hide T, Column, Prod;
    t := Dot64([d[0], d[1], f[4], d[5], f[6]], [f[3], f[2], m[9], m[8], m[7]]);
    ColumnTerms(f, 3);
    Pair(f, 0, 2, 3, 1, d[0], f[3]);
    Pair(f, 1, 2, 2, 1, d[1], f[2]);
    Pair(f, 4, 1, 9, 38, f[4], m[9]);
    Pair(f, 5, 2, 8, 19, d[5], m[8]);
    Pair(f, 6, 1, 7, 38, f[6], m[7]);
  }

  /** Column 4 of the square. */
  method SqColumn4(f: seq<i32>, d: seq<i32>, m: seq<i32>) returns (t: i64)
    requires Loose(f) && Scaled(f, d, m)
    ensures t == Column(f, f, 10, 4) && Wide(t)
  {
    hide T, Column, Prod;
    t := Dot64([d[0], d[1], f[2], d[5], d[6], f[7]], [f[4], d[3], f[2], m[9], m[8], m[7]]);
    ColumnTerms(f, 4);
    Pair(f, 0, 2, 4, 1, d[0], f[4]);
    Pair(f, 1, 2, 3, 2, d[1], d[3]);
    Self(f, 2, 1, 1, f[2], f[2]);
    Pair(f, 5, 2, 9, 38, d[5], m[9]);
    Pair(f, 6, 2, 8, 19, d[6], m[8]);
    Self(f, 7, 1, 38, f[7], m[7]);
  }

  /** Column 5 of the square. */
  method SqColumn5(f: seq<i32>, d: seq<i32>, m: seq<i32>) returns (t: i64)
    requires Loose(f) && Scaled(f, d, m)
    ensures t == Column(f, f, 10, 5) && Wide(t)
  {
    hide T, Column, Prod;
    t := Dot64([d[0], d[1], d[2], f[6], d[7]], [f[5], f[4], f[3], m[9], m[8]]);
    ColumnTerms(f, 5);
    Pair(f, 0, 2, 5, 1, d[0], f[5]);
    Pair(f, 1, 2, 4, 1, d[1], f[4]);
    Pair(f, 2, 2, 3, 1, d[2], f[3]);
    Pair(f, 6, 1, 9, 38, f[6], m[9]);
    Pair(f, 7, 2, 8, 19, d[7], m[8]);
  }

  /** Column 6 of the square. */
  method SqColumn6(f: seq<i32>, d: seq<i32>, m: seq<i32>) returns (t: i64)
    requires Loose(f) && Scaled(f, d, m)
    ensures t == Column(f, f, 10, 6) && Wide(t)
  {
    hide T, Column, Prod;
    t := Dot64([d[0], d[1], d[2], d[3], d[7], f[8]], [f[6], d[5], f[4], f[3], m[9], m[8]]);
    ColumnTerms(f, 6);
    Pair(f, 0, 2, 6, 1, d[0], f[6]);
    Pair(f, 1, 2, 5, 2, d[1], d[5]);
    Pair(f, 2, 2, 4, 1, d[2], f[4]);
    Self(f, 3, 2, 1, d[3], f[3]);
    Pair(f, 7, 2, 9, 38, d[7], m[9]);
    Self(f, 8, 1, 19, f[8], m[8]);
  }

  /** Column 7 of the square. */
  method SqColumn7(f: seq<i32>, d: seq<i32>, m: seq<i32>) returns (t: i64)
    requires Loose(f) && Scaled(f, d, m)
    ensures t == Column(f, f, 10, 7) && Wide(t)
  {
    hide T, Column, Prod;
    t := Dot64([d[0], d[1], d[2], d[3], f[8]], [f[7], f[6], f[5], f[4], m[9]]);
    ColumnTerms(f, 7);
    Pair(f, 0, 2, 7, 1, d[0], f[7]);
    Pair(f, 1, 2, 6, 1, d[1], f[6]);
    Pair(f, 2, 2, 5, 1, d[2], f[5]);
    Pair(f, 3, 2, 4, 1, d[3], f[4]);
    Pair(f, 8, 1, 9, 38, f[8], m[9]);
  }

  /** Column 8 of the square. */
  method SqColumn8(f: seq<i32>, d: seq<i32>, m: seq<i32>) returns (t: i64)
    requires Loose(f) && Scaled(f, d, m)
    ensures t == Column(f, f, 10, 8) && Wide(t)
  {
    hide T, Column, Prod;
    t := Dot64([d[0], d[1], d[2], d[3], f[4], f[9]], [f[8], d[7], f[6], d[5], f[4], m[9]]);
    ColumnTerms(f, 8);
    Pair(f, 0, 2, 8, 1, d[0], f[8]);
    Pair(f, 1, 2, 7, 2, d[1], d[7]);
    Pair(f, 2, 2, 6, 1, d[2], f[6]);
    Pair(f, 3, 2, 5, 2, d[3], d[5]);
    Self(f, 4, 1, 1, f[4], f[4]);
    Self(f, 9, 1, 38, f[9], m[9]);
  }

  /** Column 9 of the square. */
  method SqColumn9(f: seq<i32>, d: seq<i32>, m: seq<i32>) returns (t: i64)
    requires Loose(f) && Scaled(f, d, m)
    ensures t == Column(f, f, 10, 9) && Wide(t)
  {
    hide T, Column, Prod;
    t := Dot64([d[0], d[1], d[2], d[3], f[4]], [f[9], f[8], f[7], f[6], d[5]]);
    ColumnTerms(f, 9);
    Pair(f, 0, 2, 9, 1, d[0], f[9]);
    Pair(f, 1, 2, 8, 1, d[1], f[8]);
    Pair(f, 2, 2, 7, 1, d[2], f[7]);
    Pair(f, 3, 2, 6, 1, d[3], f[6]);
    Pair(f, 4, 1, 5, 2, f[4], d[5]);
  }

  /** h = f * f, with the very limbs that the general product would give. h may be f. */
  method FeSq(h: array<i32>, f: array<i32>)
    requires h.Length == f.Length == 10 && Loose(f[..])
    modifies h
    ensures h[..] == Carried(Columns(old(f[..]), old(f[..]), 10)) && Tight(h[..])
    ensures Cong(FeVal(h[..]), FeVal(old(f[..])) * FeVal(old(f[..])), P())
  {
    var a := f[..];
    var d: seq<i32> := [a[0] * 2, a[1] * 2, a[2] * 2, a[3] * 2, a[4] * 2, a[5] * 2, a[6] * 2, a[7] * 2, 0, 0];
    var m: seq<i32> := [0, 0, 0, 0, 0, a[5] * 38, a[6] * 19, a[7] * 38, a[8] * 19, a[9] * 38];
    var t0 := SqColumn0(a, d, m);
    var t1 := SqColumn1(a, d, m);
    var t2 := SqColumn2(a, d, m);
    var t3 := SqColumn3(a, d, m);
    var t4 := SqColumn4(a, d, m);
    var t5 := SqColumn5(a, d, m);
    var t6 := SqColumn6(a, d, m);
    var t7 := SqColumn7(a, d, m);
    var t8 := SqColumn8(a, d, m);
    var t9 := SqColumn9(a, d, m);
    var t := [t0, t1, t2, t3, t4, t5, t6, t7, t8, t9];
    assert t == Columns(a, a, 10);
    ColumnsVal(a, a, 10);
    FeCarry(h, t);
  }
}
