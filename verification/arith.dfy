/** Facts about products and remainders that the solver does not find by itself. */
module Arith {

  lemma MulLe(a: int, x: int, y: int)
    requires 0 <= a && x <= y
    ensures a * x <= a * y
  {
  }

  lemma MulDistr(a: int, x: int, y: int)
    ensures a * (x + y) == a * x + a * y
  {
  }

  lemma MulAssoc(a: int, b: int, c: int)
    ensures (a * b) * c == a * (b * c)
  {
  }

  lemma MulSub(a: int, x: int, y: int)
    ensures a * x - a * y == (x - y) * a
  {
  }

  /** A smaller factor leaves room for one more copy. */
  lemma MulLt(a: int, x: int, y: int)
    requires 0 <= a && x < y
    ensures a * x + a <= a * y
  {
    MulLe(a, x + 1, y);
  }

  /** The product of two bounded naturals. */
  lemma MulBound(x: int, y: int, a: int, b: int)
    requires 0 <= x <= a && 0 <= y <= b
    ensures 0 <= x * y <= a * b
  {
  }

  /** A multiple of m that is smaller than m in absolute value is zero. */
  lemma SmallMultiple(k: int, m: int)
    requires 0 < m && -m < k * m < m
    ensures k == 0
  {
  }

  /** Quotient and remainder are determined by the division equation. */
  lemma DivModUnique(x: int, q: int, r: int, m: int)
    requires 0 <= r < m && x == q * m + r
    ensures x % m == r && x / m == q
  {
    var q', r' := x / m, x % m;
    assert x == m * q' + r';
    MulSub(m, q, q');
    SmallMultiple(q - q', m);
  }

  /** a and b leave the same remainder modulo m. */
  ghost predicate Cong(a: int, b: int, m: int)
    requires 0 < m
  {
    a % m == b % m
  }

  lemma CongIntro(a: int, b: int, k: int, m: int)
    requires 0 < m && a == b + k * m
    ensures Cong(a, b, m)
  {
    var q, r := b / m, b % m;
    assert b == m * q + r;
    MulDistr(m, q, k);
    DivModUnique(a, q + k, r, m);
  }

  lemma CongElim(a: int, b: int, m: int) returns (k: int)
    requires 0 < m && Cong(a, b, m)
    ensures a == b + k * m
  {
    k := a / m - b / m;
    MulSub(m, a / m, b / m);
  }

  lemma CongRefl(a: int, m: int)
    requires 0 < m
    ensures Cong(a, a, m)
  {
  }

  lemma CongTrans(a: int, b: int, c: int, m: int)
    requires 0 < m && Cong(a, b, m) && Cong(b, c, m)
    ensures Cong(a, c, m) && Cong(b, a, m)
  {
  }

  /** Congruence is a statement about the difference. */
  lemma CongDifference(a: int, b: int, m: int)
    requires 0 < m
    ensures Cong(a, b, m) <==> Cong(a - b, 0, m)
  {
    CongRefl(b, m);
    if Cong(a, b, m) {
      CongAdd(a, b, b, b, m);
    }
    if Cong(a - b, 0, m) {
      CongAdd(a - b, 0, b, b, m);
    }
  }

  lemma CongAdd(a: int, a': int, b: int, b': int, m: int)
    requires 0 < m && Cong(a, a', m) && Cong(b, b', m)
    ensures Cong(a + b, a' + b', m) && Cong(a - b, a' - b', m)
  {
    var k := CongElim(a, a', m);
    var l := CongElim(b, b', m);
    MulDistr(m, k, l);
    MulSub(m, k, l);
    CongIntro(a + b, a' + b', k + l, m);
    CongIntro(a - b, a' - b', k - l, m);
  }

  lemma CongMul(a: int, a': int, b: int, b': int, m: int)
    requires 0 < m && Cong(a, a', m) && Cong(b, b', m)
    ensures Cong(a * b, a' * b', m)
  {
    var k := CongElim(a, a', m);
    var l := CongElim(b, b', m);
    calc {
      a * b;
      { MulDistr(a, b', l * m); }
      a * b' + a * (l * m);
      { MulDistr(b', a', k * m); }
      a' * b' + (k * m) * b' + a * (l * m);
      { MulAssoc(a, l, m); Pull(k, m, b'); MulDistr(m, k * b', a * l); }
      a' * b' + (k * b' + a * l) * m;
    }
    CongIntro(a * b, a' * b', k * b' + a * l, m);
  }

  lemma Pull(k: int, m: int, b: int)
    ensures (k * m) * b == (k * b) * m
  {
  }

  /** A number is congruent to its remainder. */
  lemma CongMod(a: int, m: int)
    requires 0 < m
    ensures Cong(a, a % m, m) && Cong(a % m, a, m)
  {
  }

  /** Congruent numbers in [0, m) are equal. */
  lemma CongSmall(a: int, b: int, m: int)
    requires 0 <= a < m && 0 <= b < m && Cong(a, b, m)
    ensures a == b
  {
  }

  /** Dividing twice is dividing by the product. */
  lemma DivDiv(x: nat, m: nat, n: nat)
    requires 0 < m && 0 < n
    ensures 0 < m * n && x / (m * n) == x / m / n
  {
    var q, r := x / m, x % m;
    var a, b := q / n, q % n;
    assert x == m * q + r && q == n * a + b;
    MulBound(m, b, m, n - 1);
    MulLe(m, 1, n);
    MulSub(m, n, 1);
    calc {
      x;
      m * (n * a + b) + r;
      { MulDistr(m, n * a, b); MulAssoc(m, n, a); }
      (m * n) * a + (m * b + r);
    }
    MulLe(m, b, n - 1);
    DivModUnique(x, a, m * b + r, m * n);
  }

  /** The quotient of naturals is a natural, and no larger than the dividend. */
  lemma DivNat(x: nat, m: nat)
    requires 0 < m
    ensures 0 <= x / m <= x && m * (x / m) <= x
  {
    var q := x / m;
    assert x == m * q + x % m;
    if q < 0 {
      MulLe(m, q, -1);
    } else {
      MulBound(1, q, m, q);
    }
  }

  /** b to the power e. */
  function Pow(b: int, e: nat): int {
    if e == 0 then 1 else b * Pow(b, e - 1)
  }

  lemma {:induction false} PowAdd(b: int, m: nat, n: nat)
    ensures Pow(b, m + n) == Pow(b, m) * Pow(b, n)
  {
    if m == 0 {
    } else {
      PowAdd(b, m - 1, n);
      MulAssoc(b, Pow(b, m - 1), Pow(b, n));
    }
  }

  /** A product under a name, so that proofs can keep it folded. */
  function Prod(x: int, y: int): int {
    x * y
  }
}
