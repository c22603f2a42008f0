/** The inverse square root in the field, by the addition chain for 2^252 - 3. */
module FieldInvSqrt {
  import opened Arith
  import opened Bits
  import opened Field25519
  import opened FieldMul
  import opened FieldSquare
  import opened FieldOps

  /** f is x to the power e. */
  ghost predicate Raised(f: seq<int>, x: int, e: nat) {
    Tight(f) && Cong(FeVal(f), Pow(x, e), P())
  }

  lemma TightIsLoose(f: seq<int>)
    requires Tight(f)
    ensures Loose(f)
  {
  }

  lemma RaisedProduct(r: seq<int>, f: seq<int>, g: seq<int>, x: int, d: nat, e: nat)
    requires Raised(f, x, d) && Raised(g, x, e) && Tight(r) && Cong(FeVal(r), FeVal(f) * FeVal(g), P())
    ensures Raised(r, x, d + e)
  {
    CongMul(FeVal(f), Pow(x, d), FeVal(g), Pow(x, e), P());
    PowAdd(x, d, e);
  }

  /** h = f * g, on powers of x. */
  method MulPow(h: array<i32>, f: array<i32>, g: array<i32>, ghost x: int, ghost d: nat, ghost e: nat)
    requires h.Length == f.Length == g.Length == 10 && Raised(f[..], x, d) && Raised(g[..], x, e)
    modifies h
    ensures Raised(h[..], x, d + e)
  {
    ghost var a, b := f[..], g[..];
    TightIsLoose(a);
    TightIsLoose(b);
    FeMul(h, f, g);
    RaisedProduct(h[..], a, b, x, d, e);
  }

  /** h = f squared n times, on powers of x. */
  method SquareTimes(h: array<i32>, f: array<i32>, n: nat, ghost x: int, ghost e: nat)
    requires h.Length == f.Length == 10 && n >= 1 && Raised(f[..], x, e)
    modifies h
    ensures Raised(h[..], x, e * Pow2(n))
  {
    ghost var a := f[..];
    TightIsLoose(a);
    FeSq(h, f);
    RaisedProduct(h[..], a, a, x, e, e);
    assert e * Pow2(1) == e + e;
    for i := 1 to n
      invariant Raised(h[..], x, e * Pow2(i))
    {
      ghost var b := h[..];
      TightIsLoose(b);
      FeSq(h, h);
      RaisedProduct(h[..], b, b, x, e * Pow2(i), e * Pow2(i));
      Doubles(e, i);
    }
  }

  lemma Doubles(e: nat, i: nat)
    ensures e * Pow2(i) + e * Pow2(i) == e * Pow2(i + 1)
  {
  }

  /** All-ones exponents of k and n bits combine to one of k + n bits. */
  lemma Ones(k: nat, n: nat)
    ensures (Pow2(k) - 1) * Pow2(n) + (Pow2(n) - 1) == Pow2(k + n) - 1
  {
    Pow2Add(k, n);
    MulSub(Pow2(n), Pow2(k), 1);
  }

  /** h = f squared n times, times g: from all-ones exponents of k and n bits to one of k + n. */
  method Extend(t: array<i32>, f: array<i32>, n: nat, g: array<i32>, h: array<i32>, ghost x: int, ghost k: nat)
    requires t.Length == f.Length == g.Length == h.Length == 10 && n >= 1 && t != g
    requires Raised(f[..], x, Pow2(k) - 1) && Raised(g[..], x, Pow2(n) - 1)
    modifies t, h
    ensures Raised(h[..], x, Pow2(k + n) - 1)
    ensures h != g ==> g[..] == old(g[..])
  {
    SquareTimes(t, f, n, x, Pow2(k) - 1);
    MulPow(h, t, g, x, (Pow2(k) - 1) * Pow2(n), Pow2(n) - 1);
    Ones(k, n);
  }

  /** The exponents met along the chain. */
  lemma Exponents()
    ensures Pow2(1) == 2 && 9 + 22 == Pow2(5) - 1 && (Pow2(250) - 1) * Pow2(2) + 1 == Pow2(252) - 3
  {
  }

  lemma RaisedOnce(f: seq<int>)
    requires Tight(f)
    ensures Raised(f, FeVal(f), 1)
  {
  }

  /** The start of the chain, up to the exponent 2^5 - 1. */
  method PowerStart(t0: array<i32>, t1: array<i32>, x: array<i32>)
    requires t0.Length == t1.Length == x.Length == 10 && t0 != x && t1 != x && t0 != t1 && Tight(x[..])
    modifies t0, t1
    ensures Raised(t0[..], FeVal(x[..]), Pow2(5) - 1)
  {
    hide *;
    ghost var v := FeVal(x[..]);
    RaisedOnce(x[..]);
    Exponents();
    SquareTimes(t0, x, 1, v, 1);
    SquareTimes(t1, t0, 1, v, 2);
    SquareTimes(t1, t1, 1, v, 4);
    MulPow(t1, x, t1, v, 1, 8);
    MulPow(t0, t0, t1, v, 2, 9);
    SquareTimes(t0, t0, 1, v, 11);
    MulPow(t0, t1, t0, v, 9, 22);
  }

  /** From the exponent 2^5 - 1 to 2^50 - 1. */
  method PowerMiddle(t0: array<i32>, t1: array<i32>, t2: array<i32>, ghost v: int)
    requires t0.Length == t1.Length == t2.Length == 10 && t0 != t1 && t0 != t2 && t1 != t2
    requires Raised(t0[..], v, Pow2(5) - 1)
    modifies t0, t1, t2
    ensures Raised(t0[..], v, Pow2(50) - 1)
  {
    hide *;
    Extend(t1, t0, 5, t0, t0, v, 5);
    Extend(t1, t0, 10, t0, t1, v, 10);
    Extend(t2, t1, 20, t1, t1, v, 20);
    Extend(t1, t1, 10, t0, t0, v, 40);
  }

  /** t0 = x to the power (p - 5) / 8, which is 2^252 - 3. */
  method Power(t0: array<i32>, t1: array<i32>, t2: array<i32>, x: array<i32>)
    requires t0.Length == t1.Length == t2.Length == x.Length == 10 && Tight(x[..])
    requires t0 != t1 && t0 != t2 && t1 != t2 && x != t0 && x != t1 && x != t2
    modifies t0, t1, t2
    ensures Raised(t0[..], FeVal(x[..]), Pow2(252) - 3)
  {
    hide *;
    ghost var v := FeVal(x[..]);
    PowerStart(t0, t1, x);
    PowerMiddle(t0, t1, t2, v);
    Extend(t1, t0, 50, t0, t1, v, 50);
    Extend(t2, t1, 100, t1, t1, v, 100);
    Extend(t1, t1, 50, t0, t0, v, 200);
    SquareTimes(t0, t0, 2, v, Pow2(250) - 1);
    RaisedOnce(x[..]);
    MulPow(t0, t0, x, v, (Pow2(250) - 1) * Pow2(2), 1);
    Exponents();
  }

  /** A square root of -1. */
  function SqrtM1(): (f: seq<i32>)
    ensures |f| == 10
  {
    [-32595792, -7943725, 9377950, 3500415, 12389472, -272473, -25146209, -2005654, 326686, 11406482]
  }

  lemma SqrtM1Value()
    ensures Tight(SqrtM1()) && Cong(FeVal(SqrtM1()) * FeVal(SqrtM1()), -1, P())
  {
    var f := SqrtM1();
    assert W(2) == 0x8_0000_0000_0000 && W(4) == 0x40_0000_0000_0000_0000_0000_0000;
    assert W(6) == 0x200_0000_0000_0000_0000_0000_0000_0000_0000_0000;
    assert W(8) == 0x1000_0000_0000_0000_0000_0000_0000_0000_0000_0000_0000_0000_0000;
    assert Sum(f, 2) == f[0] + W(1) * f[1];
    assert Sum(f, 4) == Sum(f, 2) + W(2) * f[2] + W(3) * f[3];
    assert Sum(f, 6) == Sum(f, 4) + W(4) * f[4] + W(5) * f[5];
    assert Sum(f, 8) == Sum(f, 6) + W(6) * f[6] + W(7) * f[7];
    assert FeVal(f) == 0x2b8324804fc1df0b2b4d00993dfbd7a72f431806ad2fe478c4ee1b274a0ea0b0;
    CongIntro(FeVal(f) * FeVal(f), -1, 0xecaa2e2f6a2302ccedb31ac05720688238ced2078f3eb0ec9f22e8f621972e5, P());
  }

  /** x to the power (p - 1) / 4, which decides the outcome. */
  function Quartic(x: int): int {
    Pow(x, Pow2(253) - 5)
  }

  lemma {:induction false} QuarticIs(x: int)
    ensures Quartic(x) == Pow(x, Pow2(253) - 5) && Pow(x, 1) == x
  {
    assert Pow(x, 0) == 1;
  }

  lemma QuarticExponent()
    ensures (Pow2(252) - 3) * Pow2(1) + 1 == Pow2(253) - 5 && Pow2(252) - 3 > 0 && Pow2(1) == 2
  {
    assert Pow2(253) == 2 * Pow2(252) && Pow2(252) == 2 * Pow2(251);
    assert Pow2(1) == 2 && Pow2(251) == 2 * Pow2(250);
  }

  /** r is the result for x: its square times x is 1 if the quartic symbol is 1 or -1. */
  ghost predicate RootModulo(r: int, x: int, m: int) {
    0 < m && Cong(r * r * x, 1, m)
  }

  ghost predicate IsInverseRoot(r: int, x: int) {
    RootModulo(r, x, P())
  }

  /** The root of the quartic symbol, without correction. */
  lemma PlainRoot(t: int, x: int, q: int, m: int)
    requires 0 < m && Cong(t * t * x, q, m) && Cong(q, 1, m)
    ensures RootModulo(t, x, m)
  {
  }

  /** The correction by the square root of -1. */
  lemma CorrectedRoot(t: int, x: int, q: int, i: int, r: int, m: int)
    requires 0 < m && Cong(t * t * x, q, m) && Cong(q, -1, m) && Cong(i * i, -1, m) && Cong(r, t * i, m)
    ensures RootModulo(r, x, m)
  {
    CongIntro(x, x, 0, m);
    CongMul(r, t * i, r, t * i, m);
    CongMul(r * r, (t * i) * (t * i), x, x, m);
    assert ((t * i) * (t * i)) * x == (t * t * x) * (i * i) by { Rearrange(t, i, x); }
    CongMul(t * t * x, q, i * i, -1, m);
    CongIntro(-1, -1, 0, m);
    CongMul(q, -1, -1, -1, m);
  }

  lemma Rearrange(t: int, i: int, x: int)
    ensures ((t * i) * (t * i)) * x == (t * t * x) * (i * i)
  {
  }

  /** 1 and -1 are different. */
  lemma OneIsNotMinusOne(m: int)
    requires m > 2
    ensures !Cong(1, -1, m)
  {
  }

  /** The three values compared with are different. */
  lemma RootsDiffer(q: int, i: int, m: int)
    requires m > 2 && Cong(q, 1, m) && Cong(i * i, -1, m)
    ensures !Cong(q, -1, m) && !Cong(q, -i, m)
  {
    hide *;
    OneIsNotMinusOne(m);
    CongRefl(1, m);
    CongTrans(q, 1, 1, m);
    if Cong(q, -1, m) {
      CongTrans(1, q, -1, m);
    }
    NegSquare(i);
    if Cong(q, -i, m) {
      CongMul(q, -i, q, -i, m);
      CongMul(q, 1, q, 1, m);
      CongTrans(q * q, 1, 1, m);
      CongTrans(1, q * q, i * i, m);
      CongTrans(1, i * i, -1, m);
    }
  }

  lemma NegSquare(i: int)
    ensures (-i) * (-i) == i * i
  {
  }

  lemma {:induction false} ZeroPower(x: int, e: nat, m: int)
    requires 0 < m && Cong(x, 0, m) && e > 0
    ensures Cong(Pow(x, e), 0, m)
  {
    var y := Pow(x, e - 1);
    CongIntro(y, y, 0, m);
    CongMul(x, 0, y, y, m);
  }

  /** t0 = x to the power (p - 5) / 8 and the quartic symbol of x in t1. */
  method Candidates(t0: array<i32>, t1: array<i32>, t2: array<i32>, x: array<i32>)
    requires t0.Length == t1.Length == t2.Length == x.Length == 10 && Tight(x[..])
    requires t0 != t1 && t0 != t2 && t1 != t2 && x != t0 && x != t1 && x != t2
    modifies t0, t1, t2
    ensures Tight(t0[..]) && Cong(FeVal(t0[..]), Pow(FeVal(x[..]), Pow2(252) - 3), P())
    ensures Tight(t1[..]) && Cong(FeVal(t1[..]), Quartic(FeVal(x[..])), P())
  {
    hide *;
    ghost var v, e := FeVal(x[..]), Pow2(252) - 3;
    QuarticIs(v);
    QuarticExponent();
    Power(t0, t1, t2, x);
    RaisedOnce(x[..]);
    SquareTimes(t1, t0, 1, v, e);
    MulPow(t1, t1, x, v, e * Pow2(1), 1);
    RaisedMeans(t0[..], v, e);
    RaisedMeans(t1[..], v, Pow2(253) - 5);
  }

  /** Compares x with 0, and its quartic symbol with 1, -1 and minus the square root of -1. */
  method Classify(quartic: array<i32>, x: array<i32>, i: array<i32>) returns (z0: int, p1: int, m1: int, ms: int)
    requires quartic.Length == x.Length == i.Length == 10 && Tight(quartic[..]) && Tight(x[..]) && Tight(i[..])
    ensures z0 == if Cong(FeVal(x[..]), 0, P()) then 1 else 0
    ensures p1 == if Cong(FeVal(quartic[..]), 1, P()) then 1 else 0
    ensures m1 == if Cong(FeVal(quartic[..]), -1, P()) then 1 else 0
    ensures ms == if Cong(FeVal(quartic[..]), -FeVal(i[..]), P()) then 1 else 0
  {
    hide *;
    var check := new i32[10](_ => 0);
    FeSmall(check, 0);
    z0 := FeIsEqual(x, check);
    FeSmall(check, 1);
    p1 := FeIsEqual(quartic, check);
    FeNeg(check, check);
    m1 := FeIsEqual(quartic, check);
    FeNeg(check, i);
    ms := FeIsEqual(quartic, check);
  }

  /** isr = 1 / sqrt(x), or 0 for 0; the result says whether that root exists. isr may be x. */
  method InvSqrt(isr: array<i32>, x: array<i32>) returns (ok: int)
    requires isr.Length == x.Length == 10 && Tight(x[..])
    modifies isr
    ensures Tight(isr[..]) && 0 <= ok <= 1
    ensures var v := FeVal(old(x[..]));
            ok == 1 <==> Cong(v, 0, P()) || Cong(Quartic(v), 1, P()) || Cong(Quartic(v), -1, P())
    ensures var v := FeVal(old(x[..]));
            if Cong(v, 0, P()) then Cong(FeVal(isr[..]), 0, P())
            else ok == 1 ==> IsInverseRoot(FeVal(isr[..]), v)
    ensures var v, i := FeVal(old(x[..])), FeVal(SqrtM1());
            !Cong(v, 0, P()) && (Cong(Quartic(v), i, P()) || Cong(Quartic(v), -i, P()))
            ==> ok == 0 && Cong(FeVal(isr[..]) * FeVal(isr[..]) * v, i, P())
  {
    SqrtM1Value();
    hide *;
    ghost var v := FeVal(x[..]);
    var t0 := new i32[10](_ => 0);
    var t1 := new i32[10](_ => 0);
    var t2 := new i32[10](_ => 0);
    Candidates(t0, t1, t2, x);
    var root := SqrtM1();
    var i := new i32[10](j requires 0 <= j < 10 => root[j]);
    assert i[..] == root;
    var z0, p1, m1, ms := Classify(t1, x, i);
    TightIsLoose(t0[..]);
    TightIsLoose(i[..]);
    FeMul(isr, t0, i);
    ghost var corrected := FeVal(isr[..]);
    FeCCopy(isr, t0, 1 - (if m1 == 1 || ms == 1 then 1 else 0));
    ok := if p1 == 1 || m1 == 1 || z0 == 1 then 1 else 0;
    Outcome(v, FeVal(t0[..]), FeVal(t1[..]), FeVal(root), corrected, FeVal(isr[..]), z0, p1, m1, ms, P());
    RootIs(FeVal(isr[..]), v);
    if Cong(Quartic(v), FeVal(root), P()) || Cong(Quartic(v), -FeVal(root), P()) {
      ImaginaryOutcome(v, FeVal(t0[..]), FeVal(t1[..]), FeVal(root), corrected, FeVal(isr[..]), m1, ms, P());
    }
  }

  lemma RootIs(r: int, x: int)
    ensures IsInverseRoot(r, x) <==> RootModulo(r, x, P())
  {
  }

  lemma RaisedMeans(f: seq<int>, x: int, e: nat)
    requires Raised(f, x, e)
    ensures Tight(f) && Cong(FeVal(f), Pow(x, e), P())
  {
  }

  /** The power computed is a root of the quartic symbol over x. */
  lemma RootOfQuartic(v: int, t: int, q: int, m: int)
    requires 0 < m && Cong(t, Pow(v, Pow2(252) - 3), m) && Cong(q, Quartic(v), m)
    ensures Cong(t * t * v, q, m)
  {
    hide *;
    QuarticExponent();
    QuarticIs(v);
    var e, y := Pow2(252) - 3, Pow(v, Pow2(252) - 3);
    PowAdd(v, e, e);
    PowAdd(v, e + e, 1);
    CongMul(t, y, t, y, m);
    CongRefl(v, m);
    CongMul(t * t, y * y, v, v, m);
    CongRefl(Quartic(v), m);
    CongTrans(q, Quartic(v), Quartic(v), m);
    CongTrans(t * t * v, Quartic(v), q, m);
  }

  lemma Outcome(v: int, t: int, q: int, i: int, c: int, r: int, z0: int, p1: int, m1: int, ms: int, m: int)
    requires m > 2 && Cong(t, Pow(v, Pow2(252) - 3), m) && Cong(q, Quartic(v), m) && Cong(i * i, -1, m)
    requires Cong(c, t * i, m) && r == (if m1 == 1 || ms == 1 then c else t)
    requires z0 == (if Cong(v, 0, m) then 1 else 0) && p1 == (if Cong(q, 1, m) then 1 else 0)
    requires m1 == (if Cong(q, -1, m) then 1 else 0) && ms == (if Cong(q, -i, m) then 1 else 0)
    ensures p1 == 1 <==> Cong(Quartic(v), 1, m)
    ensures m1 == 1 <==> Cong(Quartic(v), -1, m)
    ensures if z0 == 1 then Cong(r, 0, m) else p1 == 1 || m1 == 1 ==> RootModulo(r, v, m)
  {
    hide *;
    CongBoth(q, Quartic(v), 1, m);
    CongBoth(q, Quartic(v), -1, m);
    if z0 == 1 {
      QuarticExponent();
      ZeroPower(v, Pow2(252) - 3, m);
      CongTrans(t, Pow(v, Pow2(252) - 3), 0, m);
      CongRefl(i, m);
      CongMul(t, 0, i, i, m);
      CongTrans(c, t * i, 0, m);
    } else if p1 == 1 {
      RootsDiffer(q, i, m);
      RootOfQuartic(v, t, q, m);
      PlainRoot(t, v, q, m);
    } else if m1 == 1 {
      RootOfQuartic(v, t, q, m);
      CorrectedRoot(t, v, q, i, c, m);
    }
  }

  /** For a symbol that is a root of -1, the result is a root of that root over x. */
  lemma ImaginaryOutcome(v: int, t: int, q: int, i: int, c: int, r: int, m1: int, ms: int, m: int)
    requires m > 2 && Cong(t, Pow(v, Pow2(252) - 3), m) && Cong(q, Quartic(v), m) && Cong(i * i, -1, m)
    requires Cong(c, t * i, m) && r == (if m1 == 1 || ms == 1 then c else t)
    requires m1 == (if Cong(q, -1, m) then 1 else 0) && ms == (if Cong(q, -i, m) then 1 else 0)
    requires Cong(Quartic(v), i, m) || Cong(Quartic(v), -i, m)
    ensures Cong(r * r * v, i, m) && !Cong(Quartic(v), 1, m) && !Cong(Quartic(v), -1, m)
  {
    hide *;
    CongBoth(q, Quartic(v), i, m);
    CongBoth(q, Quartic(v), -i, m);
    CongBoth(q, Quartic(v), 1, m);
    CongBoth(q, Quartic(v), -1, m);
    RootOfQuartic(v, t, q, m);
    NotReal(q, i, m);
    if Cong(q, -i, m) {
      Turned(t, v, q, i, c, m);
    } else {
      CongTrans(t * t * v, q, i, m);
    }
  }

  /** A root of -1 is neither 1 nor -1, nor is its opposite. */
  lemma NotReal(q: int, i: int, m: int)
    requires m > 2 && Cong(i * i, -1, m) && (Cong(q, i, m) || Cong(q, -i, m))
    ensures !Cong(q, 1, m) && !Cong(q, -1, m)
  {
    hide *;
    NegSquare(i);
    var j := if Cong(q, i, m) then i else -i;
    CongMul(q, j, q, j, m);
    CongTrans(q * q, i * i, -1, m);
    OneIsNotMinusOne(m);
    if Cong(q, 1, m) {
      CongMul(q, 1, q, 1, m);
      CongTrans(q * q, 1, 1, m) by { CongRefl(1, m); }
      CongTrans(1, q * q, -1, m);
    }
    if Cong(q, -1, m) {
      CongMul(q, -1, q, -1, m);
      CongTrans(q * q, 1, 1, m) by { CongRefl(1, m); }
      CongTrans(1, q * q, -1, m);
    }
  }

  /** Multiplying by the root of -1 turns the symbol -i into i. */
  lemma Turned(t: int, x: int, q: int, i: int, r: int, m: int)
    requires 0 < m && Cong(t * t * x, q, m) && Cong(q, -i, m) && Cong(i * i, -1, m) && Cong(r, t * i, m)
    ensures Cong(r * r * x, i, m)
  {
    hide *;
    CongRefl(x, m);
    CongMul(r, t * i, r, t * i, m);
    CongMul(r * r, (t * i) * (t * i), x, x, m);
    Rearrange(t, i, x);
    CongMul(t * t * x, q, i * i, -1, m);
    CongRefl(-1, m);
    CongMul(q, -i, -1, -1, m);
    CongTrans(r * r * x, (t * t * x) * (i * i), q * -1, m);
    CongTrans(r * r * x, q * -1, (-i) * -1, m);
  }

  lemma CongBoth(a: int, b: int, c: int, m: int)
    requires 0 < m && Cong(a, b, m)
    ensures Cong(a, c, m) <==> Cong(b, c, m)
  {
  }
}
