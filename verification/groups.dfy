/** Commutative groups and the multiples of their elements. */
module Groups {

  datatype Group<!T> = Group(zero: T, add: (T, T) -> T, neg: T -> T)

  ghost predicate Abelian<T(!new)>(g: Group<T>) {
    && (forall x, y, z :: g.add(g.add(x, y), z) == g.add(x, g.add(y, z)))
    && (forall x, y :: g.add(x, y) == g.add(y, x))
    && (forall x :: g.add(g.zero, x) == x)
    && (forall x :: g.add(g.neg(x), x) == g.zero)
  }

  function Natural<T>(g: Group<T>, n: nat, p: T): T {
    if n == 0 then g.zero else g.add(p, Natural(g, n - 1, p))
  }

  /** [n]p. */
  function Multiple<T>(g: Group<T>, n: int, p: T): T {
    if n >= 0 then Natural(g, n, p) else g.neg(Natural(g, -n, p))
  }

  lemma Assoc<T(!new)>(g: Group<T>, x: T, y: T, z: T)
    requires Abelian(g)
    ensures g.add(g.add(x, y), z) == g.add(x, g.add(y, z))
  {
  }

  lemma Comm<T(!new)>(g: Group<T>, x: T, y: T)
    requires Abelian(g)
    ensures g.add(x, y) == g.add(y, x)
  {
  }

  lemma Units<T(!new)>(g: Group<T>, x: T)
    requires Abelian(g)
    ensures g.add(g.zero, x) == x && g.add(x, g.zero) == x
    ensures g.add(g.neg(x), x) == g.zero && g.add(x, g.neg(x)) == g.zero
  {
  }

  lemma Cancel<T(!new)>(g: Group<T>, x: T, y: T, z: T)
    requires Abelian(g) && g.add(x, y) == g.add(x, z)
    ensures y == z
  {
    hide Abelian;
    var n := g.neg(x);
    Assoc(g, n, x, y);
    Assoc(g, n, x, z);
    Units(g, x);
    Units(g, y);
    Units(g, z);
  }

  lemma NegSum<T(!new)>(g: Group<T>, x: T, y: T)
    requires Abelian(g)
    ensures g.neg(g.add(x, y)) == g.add(g.neg(x), g.neg(y))
  {
    hide Abelian;
    var s, a, b := g.add(x, y), g.neg(x), g.neg(y);
    Comm(g, a, b);
    Assoc(g, x, y, g.add(b, a));
    Assoc(g, y, b, a);
    Units(g, x);
    Units(g, y);
    Units(g, a);
    Units(g, s);
    Cancel(g, s, g.neg(s), g.add(a, b));
  }

  lemma MultipleNext<T(!new)>(g: Group<T>, n: int, p: T)
    requires Abelian(g)
    ensures Multiple(g, n + 1, p) == g.add(p, Multiple(g, n, p))
  {
    hide Abelian;
    if n < 0 {
      var y := Natural(g, -n - 1, p);
      NegSum(g, p, y);
      Assoc(g, p, g.neg(p), g.neg(y));
      Units(g, p);
      Units(g, g.neg(y));
      Units(g, g.neg(g.zero));
      Units(g, g.zero);
    }
  }

  lemma MultipleZero<T(!new)>(g: Group<T>, p: T)
    requires Abelian(g)
    ensures Multiple(g, 0, p) == g.zero && Multiple(g, 1, p) == p
  {
  }

  /** [m + n]p = [m]p + [n]p. */
  lemma {:induction false} MultipleAdd<T(!new)>(g: Group<T>, m: int, n: int, p: T)
    requires Abelian(g)
    ensures Multiple(g, m + n, p) == g.add(Multiple(g, m, p), Multiple(g, n, p))
    decreases if m >= 0 then m else -m
  {
    hide *;
    var y := Multiple(g, n, p);
    if m == 0 {
      MultipleZero(g, p);
      Units(g, y);
    } else if m > 0 {
      MultipleAdd(g, m - 1, n, p);
      MultipleNext(g, m - 1, p);
      MultipleNext(g, m - 1 + n, p);
      Assoc(g, p, Multiple(g, m - 1, p), y);
    } else {
      MultipleAdd(g, m + 1, n, p);
      MultipleNext(g, m, p);
      MultipleNext(g, m + n, p);
      var x := Multiple(g, m, p);
      Assoc(g, p, x, y);
      assert m + 1 + n == m + n + 1;
      Cancel(g, p, Multiple(g, m + n, p), g.add(x, y));
    }
  }

  /** [-n]p = -[n]p. */
  lemma MultipleNeg<T(!new)>(g: Group<T>, n: int, p: T)
    requires Abelian(g)
    ensures Multiple(g, -n, p) == g.neg(Multiple(g, n, p))
  {
    MultipleAdd(g, n, -n, p);
    var x := Multiple(g, n, p);
    assert g.add(x, g.neg(x)) == g.zero;
    Cancel(g, x, Multiple(g, -n, p), g.neg(x));
  }

  /** [a]p + [b]q. */
  function Combination<T>(g: Group<T>, a: int, p: T, b: int, q: T): T {
    g.add(Multiple(g, a, p), Multiple(g, b, q))
  }

  lemma CombinationAdd<T(!new)>(g: Group<T>, a: int, a': int, p: T, b: int, b': int, q: T)
    requires Abelian(g)
    ensures Combination(g, a + a', p, b + b', q) == g.add(Combination(g, a, p, b, q), Combination(g, a', p, b', q))
  {
    MultipleAdd(g, a, a', p);
    MultipleAdd(g, b, b', q);
    var x, x', y, y' := Multiple(g, a, p), Multiple(g, a', p), Multiple(g, b, q), Multiple(g, b', q);
    calc {
      g.add(g.add(x, x'), g.add(y, y'));
      g.add(x, g.add(x', g.add(y, y')));
      g.add(x, g.add(g.add(x', y), y'));
      g.add(x, g.add(g.add(y, x'), y'));
      g.add(x, g.add(y, g.add(x', y')));
      g.add(g.add(x, y), g.add(x', y'));
    }
  }

  /** [n](p + q) = [n]p + [n]q, for naturals. */
  lemma {:induction false} MultipleSum<T(!new)>(g: Group<T>, n: nat, p: T, q: T)
    requires Abelian(g)
    ensures Multiple(g, n, g.add(p, q)) == g.add(Multiple(g, n, p), Multiple(g, n, q))
  {
    hide *;
    var r := g.add(p, q);
    if n == 0 {
      MultipleZero(g, p);
      MultipleZero(g, q);
      MultipleZero(g, r);
      Units(g, g.zero);
    } else {
      MultipleSum(g, n - 1, p, q);
      MultipleNext(g, n - 1, p);
      MultipleNext(g, n - 1, q);
      MultipleNext(g, n - 1, r);
      Swap(g, p, q, Multiple(g, n - 1, p), Multiple(g, n - 1, q));
    }
  }

  lemma Swap<T(!new)>(g: Group<T>, x: T, y: T, u: T, v: T)
    requires Abelian(g)
    ensures g.add(g.add(x, y), g.add(u, v)) == g.add(g.add(x, u), g.add(y, v))
  {
  }

  /** [n](-p) = -[n]p, for naturals. */
  lemma {:induction false} MultipleOfNeg<T(!new)>(g: Group<T>, n: nat, p: T)
    requires Abelian(g)
    ensures Multiple(g, n, g.neg(p)) == g.neg(Multiple(g, n, p))
  {
    hide *;
    MultipleSum(g, n, p, g.neg(p));
    Units(g, p);
    NaturalOfZero(g, n);
    Units(g, Multiple(g, n, p));
    Cancel(g, Multiple(g, n, p), Multiple(g, n, g.neg(p)), g.neg(Multiple(g, n, p)));
  }

  lemma {:induction false} NaturalOfZero<T(!new)>(g: Group<T>, n: nat)
    requires Abelian(g)
    ensures Multiple(g, n, g.zero) == g.zero
  {
    hide *;
    MultipleZero(g, g.zero);
    if n > 0 {
      NaturalOfZero(g, n - 1);
      MultipleNext(g, n - 1, g.zero);
      Units(g, g.zero);
    }
  }

  lemma NegNeg<T(!new)>(g: Group<T>, x: T)
    requires Abelian(g)
    ensures g.neg(g.neg(x)) == x
  {
    hide *;
    Units(g, x);
    Units(g, g.neg(x));
    Cancel(g, g.neg(x), g.neg(g.neg(x)), x);
  }

  /** A difference vanishes exactly when its terms are equal. */
  lemma ZeroDifference<T(!new)>(g: Group<T>, x: T, y: T)
    requires Abelian(g)
    ensures g.add(x, g.neg(y)) == g.zero <==> x == y
  {
    hide *;
    Units(g, y);
    Comm(g, x, g.neg(y));
    if g.add(x, g.neg(y)) == g.zero {
      Cancel(g, g.neg(y), x, y);
    }
  }

  /** Adding a multiple of one of the two points. */
  lemma CombinationLeft<T(!new)>(g: Group<T>, a: int, p: T, b: int, q: T, c: int)
    requires Abelian(g)
    ensures g.add(Combination(g, a, p, b, q), Multiple(g, c, p)) == Combination(g, a + c, p, b, q)
  {
    hide Abelian, Multiple;
    CombinationAdd(g, a, c, p, b, 0, q);
    MultipleZero(g, q);
    Units(g, Multiple(g, c, p));
  }

  lemma CombinationRight<T(!new)>(g: Group<T>, a: int, p: T, b: int, q: T, c: int)
    requires Abelian(g)
    ensures g.add(Combination(g, a, p, b, q), Multiple(g, c, q)) == Combination(g, a, p, b + c, q)
  {
    hide Abelian, Multiple;
    CombinationAdd(g, a, 0, p, b, c, q);
    MultipleZero(g, p);
    Units(g, Multiple(g, c, q));
  }

  /** The group operations under names of their own. */
  function Plus<T>(g: Group<T>, x: T, y: T): T {
    g.add(x, y)
  }

  function Minus<T>(g: Group<T>, x: T, y: T): T {
    g.add(x, g.neg(y))
  }

  /** Doubling, and adding a signed multiple of either point. */
  lemma CombinationSteps<T(!new)>(g: Group<T>, a: int, p: T, b: int, q: T, c: int)
    requires Abelian(g)
    ensures Plus(g, Combination(g, a, p, b, q), Combination(g, a, p, b, q)) == Combination(g, 2 * a, p, 2 * b, q)
    ensures Plus(g, Combination(g, a, p, b, q), Multiple(g, c, p)) == Combination(g, a + c, p, b, q)
    ensures Plus(g, Combination(g, a, p, b, q), Multiple(g, c, q)) == Combination(g, a, p, b + c, q)
  {
    hide Abelian, Multiple, Combination;
    CombinationAdd(g, a, a, p, b, b, q);
    CombinationLeft(g, a, p, b, q, c);
    CombinationRight(g, a, p, b, q, c);
  }

  /** Taking away a multiple is adding the opposite one; adding none changes nothing. */
  lemma SignedSteps<T(!new)>(g: Group<T>, x: T, c: int, p: T)
    requires Abelian(g)
    ensures Minus(g, x, Multiple(g, -c, p)) == Plus(g, x, Multiple(g, c, p))
    ensures Plus(g, x, Multiple(g, 0, p)) == x
  {
    hide Abelian, Multiple;
    MultipleNeg(g, -c, p);
    MultipleZero(g, p);
    Units(g, x);
  }
}
