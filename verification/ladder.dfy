/** The signature equation: a merged double-and-add ladder over two recoded scalars, run on limbs. */
module SignatureEquation {
  import opened Arith
  import opened Bits
  import opened Limbs
  import opened Bytes
  import opened Groups
  import opened SlidingWindow
  import opened Field25519
  import opened FieldOps
  import opened Edwards
  import opened EdwardsLaw
  import opened EdwardsDecode
  import opened EdwardsEncode
  import opened CurvePoints
  import opened FieldInvSqrt
  import ScalarModL
  import Montgomery

  const P_W_WIDTH: nat := 3
  const B_W_WIDTH: nat := 5

  /** The constant table holds the odd multiples 1, 3, ..., 15 of the base point. */
  ghost predicate Window<T>(g: Group<T>, rep: (Point, T) -> bool, window: seq<Niels>, b: T) {
    |window| == 8 && forall j :: 0 <= j < 8 ==> Precomputes(rep, window[j], Multiple(g, 2 * j + 1, b))
  }

  /** The table built for one signature holds the multiples 1 and 3 of its public key, negated. */
  ghost predicate Lut<T>(g: Group<T>, rep: (Point, T) -> bool, lut: seq<Projective>, a: T) {
    |lut| == 2 && forall j :: 0 <= j < 2 ==> Caches(rep, lut[j], Multiple(g, 2 * j + 1, a))
  }

  method BuildTable<T(!new)>(minusA: Ge, ghost g: Group<T>, ghost rep: (Point, T) -> bool, ghost a: T)
    returns (lut: seq<Projective>)
    requires CurveGroup(g, rep) && Stands(rep, minusA, a)
    ensures Lut(g, rep, lut, a)
  {
    hide *;
    ZeroRep(g, rep);
    FirstMultiples(g, a);
    var sum := Twice(minusA, g, rep, a);
    var first := Cache(minusA, g, rep, a);
    Add(sum, first, g, rep, Plus(g, a, a), a);
    var second := Cache(sum, g, rep, Plus(g, Plus(g, a, a), a));
    lut := [first, second];
    LutIntro(g, rep, first, second, a);
  }

  lemma LutIntro<T>(g: Group<T>, rep: (Point, T) -> bool, first: Projective, second: Projective, a: T)
    requires Caches(rep, first, Multiple(g, 1, a)) && Caches(rep, second, Multiple(g, 3, a))
    ensures Lut(g, rep, [first, second], a)
  {
    hide Caches, Multiple;
  }

  lemma FirstMultiples<T(!new)>(g: Group<T>, a: T)
    requires Abelian(g)
    ensures Multiple(g, 1, a) == a && Multiple(g, 3, a) == Plus(g, Plus(g, a, a), a)
  {
    hide Abelian, Multiple;
    MultipleZero(g, a);
    MultipleAdd(g, 1, 1, a);
    MultipleAdd(g, 2, 1, a);
  }

  /** Adds the multiple of the public key that a signed digit selects. */
  method AddKeyDigit<T(!new)>(sum: Ge, digit: int, lut: seq<Projective>,
                              ghost g: Group<T>, ghost rep: (Point, T) -> bool, ghost x: T, ghost a: T)
    requires CurveGroup(g, rep) && Stands(rep, sum, x) && Lut(g, rep, lut, a)
    requires (digit == 0 || Digit(digit, P_W_WIDTH))
    modifies sum.X, sum.Y, sum.Z, sum.T
    ensures Stands(rep, sum, Plus(g, x, Multiple(g, digit, a)))
  {
    hide *;
    ZeroRep(g, rep);
    SignedSteps(g, x, digit, a);
    if digit > 0 {
      KeyEntry(g, rep, lut, a, digit);
      Add(sum, lut[digit / 2], g, rep, x, Multiple(g, digit, a));
    }
    if digit < 0 {
      KeyEntry(g, rep, lut, a, -digit);
      Sub(sum, lut[-digit / 2], g, rep, x, Multiple(g, -digit, a));
    }
  }

  lemma KeyEntry<T>(g: Group<T>, rep: (Point, T) -> bool, lut: seq<Projective>, a: T, d: int)
    requires Lut(g, rep, lut, a) && 0 < d && (Digit(d, P_W_WIDTH) || Digit(-d, P_W_WIDTH))
    ensures d / 2 < |lut| && Caches(rep, lut[d / 2], Multiple(g, d, a))
  {
    TableSizes();
    TableIndex(d, P_W_WIDTH);
    hide Caches, Multiple, Digit;
  }

  /** Adds the multiple of the base point that a signed digit selects. */
  method AddBaseDigit<T(!new)>(sum: Ge, digit: int, window: seq<Niels>,
                               ghost g: Group<T>, ghost rep: (Point, T) -> bool, ghost x: T, ghost b: T)
    requires CurveGroup(g, rep) && Stands(rep, sum, x) && Window(g, rep, window, b)
    requires digit == 0 || Digit(digit, B_W_WIDTH)
    modifies sum.X, sum.Y, sum.Z, sum.T
    ensures Stands(rep, sum, Plus(g, x, Multiple(g, digit, b)))
  {
    hide *;
    ZeroRep(g, rep);
    SignedSteps(g, x, digit, b);
    if digit > 0 {
      BaseEntry(g, rep, window, b, digit);
      Madd(sum, window[digit / 2], g, rep, x, Multiple(g, digit, b));
    }
    if digit < 0 {
      BaseEntry(g, rep, window, b, -digit);
      Msub(sum, window[-digit / 2], g, rep, x, Multiple(g, -digit, b));
    }
  }

  lemma BaseEntry<T>(g: Group<T>, rep: (Point, T) -> bool, window: seq<Niels>, b: T, d: int)
    requires Window(g, rep, window, b) && 0 < d && (Digit(d, B_W_WIDTH) || Digit(-d, B_W_WIDTH))
    ensures d / 2 < |window| && Precomputes(rep, window[d / 2], Multiple(g, d, b))
  {
    TableSizes();
    TableIndex(d, B_W_WIDTH);
    hide Precomputes, Multiple, Digit;
  }

  /** Halving an odd digit finds its table entry. */
  lemma TableIndex(d: int, width: nat)
    requires 2 <= width && 0 < d && (Digit(d, width) || Digit(-d, width))
    ensures d / 2 < Pow2(width - 2) && 2 * (d / 2) + 1 == d
  {
  }

  /** One position of the recoding joins the multiples accumulated so far. */
  lemma Accumulate(x: int, e: int, d: int, rest: int, rest': int, i: nat)
    requires x == e * Pow2(i + 1) + rest && rest == d * Pow2(i) + rest'
    ensures x == (2 * e + d) * Pow2(i) + rest'
  {
  }

  /** What both recoders have delivered so far, and what is to come, make up the scalars. */
  ghost predicate Progress(sSlide: Slide, hSlide: Slide, s: seq<u8>, h: seq<u8>, es: int, eh: int, i: int)
    requires |s| == |h| == 32
    reads sSlide, hSlide
  {
    && -1 <= i && sSlide.Ready(B_W_WIDTH, i) && hSlide.Ready(P_W_WIDTH, i)
    && Num(s, 32) == es * Pow2(i + 1) + sSlide.Remaining(s, i)
    && Num(h, 32) == eh * Pow2(i + 1) + hSlide.Remaining(h, i)
  }

  method NextDigits(sSlide: Slide, hSlide: Slide, s: seq<u8>, h: seq<u8>, i: nat, ghost es: int, ghost eh: int)
    returns (sDigit: int, hDigit: int)
    requires |s| == |h| == 32 && sSlide != hSlide && Progress(sSlide, hSlide, s, h, es, eh, i)
    modifies sSlide, hSlide
    ensures sDigit == 0 || Digit(sDigit, B_W_WIDTH)
    ensures hDigit == 0 || Digit(hDigit, P_W_WIDTH)
    ensures Progress(sSlide, hSlide, s, h, 2 * es + sDigit, 2 * eh + hDigit, i - 1)
  {
    hide Num, Pow2, RemainingAt, Digit;
    ghost var hRest, sRest := hSlide.Remaining(h, i), sSlide.Remaining(s, i);
    hDigit := hSlide.Step(P_W_WIDTH, i, h);
    sDigit := sSlide.Step(B_W_WIDTH, i, s);
    Accumulate(Num(h, 32), eh, hDigit, hRest, hSlide.Remaining(h, i - 1), i);
    Accumulate(Num(s, 32), es, sDigit, sRest, sSlide.Remaining(s, i - 1), i);
  }

  method Iteration<T(!new)>(sum: Ge, sDigit: int, hDigit: int, lut: seq<Projective>, window: seq<Niels>,
                            ghost g: Group<T>, ghost rep: (Point, T) -> bool, ghost a: T, ghost b: T, ghost es: int, ghost eh: int)
    requires CurveGroup(g, rep) && Lut(g, rep, lut, a) && Window(g, rep, window, b)
    requires sDigit == 0 || Digit(sDigit, B_W_WIDTH)
    requires hDigit == 0 || Digit(hDigit, P_W_WIDTH)
    requires Stands(rep, sum, Combination(g, es, b, eh, a))
    modifies sum.X, sum.Y, sum.Z, sum.T
    ensures Stands(rep, sum, Combination(g, 2 * es + sDigit, b, 2 * eh + hDigit, a))
  {
    hide *;
    ZeroRep(g, rep);
    CombinationSteps(g, es, b, eh, a, 0);
    CombinationSteps(g, 2 * es, b, 2 * eh, a, hDigit);
    CombinationSteps(g, 2 * es, b, 2 * eh + hDigit, a, sDigit);
    Double(sum, g, rep, Combination(g, es, b, eh, a));
    AddKeyDigit(sum, hDigit, lut, g, rep, Combination(g, 2 * es, b, 2 * eh, a), a);
    AddBaseDigit(sum, sDigit, window, g, rep, Combination(g, 2 * es, b, 2 * eh + hDigit, a), b);
  }

  lemma TableSizes()
    ensures Pow2(P_W_WIDTH - 2) == 2 && Pow2(B_W_WIDTH - 2) == 8
  {
  }

  /** Turns -A, in place, into [s]B + [h](-A): one doubling and at most two additions a step. */
  method MergedLadder<T(!new)>(sum: Ge, s: seq<u8>, h: seq<u8>, window: seq<Niels>,
                               ghost g: Group<T>, ghost rep: (Point, T) -> bool, ghost a: T, ghost b: T)
    requires CurveGroup(g, rep) && Window(g, rep, window, b) && Stands(rep, sum, a)
    requires |s| == |h| == 32 && Num(s, 32) < Pow2(253) && Num(h, 32) < Pow2(253)
    modifies sum.X, sum.Y, sum.Z, sum.T
    ensures Stands(rep, sum, Combination(g, Num(s, 32), b, Num(h, 32), a))
  {
    hide *;
    ZeroRep(g, rep);
    StandsTidy(rep, sum, a);
    var lut := BuildTable(sum, g, rep, a);
    var sSlide, hSlide, i := Recoders(s, h);
    Zero(sum, g, rep);
    ghost var es, eh := 0, 0;
    NothingYet(g, b, a);
    while i >= 0
      invariant -1 <= i && Lut(g, rep, lut, a)
      invariant Progress(sSlide, hSlide, s, h, es, eh, i)
      invariant Stands(rep, sum, Combination(g, es, b, eh, a))
    {
      var sDigit, hDigit := NextDigits(sSlide, hSlide, s, h, i, es, eh);
      Iteration(sum, sDigit, hDigit, lut, window, g, rep, a, b, es, eh);
      es, eh := 2 * es + sDigit, 2 * eh + hDigit;
      i := i - 1;
    }
    Delivered(sSlide, hSlide, s, h, es, eh);
  }

  /** Both recoders, and the top position either has a digit at. */
  method Recoders(s: seq<u8>, h: seq<u8>) returns (sSlide: Slide, hSlide: Slide, i: int)
    requires |s| == |h| == 32 && Num(s, 32) < Pow2(253) && Num(h, 32) < Pow2(253)
    ensures fresh(sSlide) && fresh(hSlide) && sSlide != hSlide && 0 <= i && Progress(sSlide, hSlide, s, h, 0, 0, i)
  {
    hide Num, Pow2, RemainingAt, Digit, High;
    hSlide := new Slide(h);
    sSlide := new Slide(s);
    i := if hSlide.nextCheck > sSlide.nextCheck then hSlide.nextCheck else sSlide.nextCheck;
    sSlide.Initial(s, B_W_WIDTH, i);
    hSlide.Initial(h, P_W_WIDTH, i);
  }

  /** After the last digit, the digits are the scalars. */
  lemma Delivered(sSlide: Slide, hSlide: Slide, s: seq<u8>, h: seq<u8>, es: int, eh: int)
    requires |s| == |h| == 32 && Progress(sSlide, hSlide, s, h, es, eh, -1)
    ensures es == Num(s, 32) && eh == Num(h, 32)
  {
    Ends(s, sSlide.Check(), sSlide.nextIndex, sSlide.nextDigit, B_W_WIDTH, -1);
    Ends(h, hSlide.Check(), hSlide.nextIndex, hSlide.nextDigit, P_W_WIDTH, -1);
    assert Pow2(0) == 1;
    hide RemainingAt, Num;
  }

  lemma NothingYet<T(!new)>(g: Group<T>, b: T, minusA: T)
    requires Abelian(g)
    ensures g.zero == Combination(g, 0, b, 0, minusA)
  {
  }

  // Checking a signature

  /** The encoding of the neutral point. */
  function ZeroPoint(): (s: seq<u8>)
    ensures |s| == 32
  {
    [1] + seq(31, _ => 0)
  }

  /** What holds because the field is prime and the curve constant is not a square in it. */
  ghost predicate FieldFacts() {
    && (forall z :: !Cong(z, 0, P()) ==> UnitSquared(z))
    && (forall y :: Cong(Prod(Numerator(y), Denominator(y)), 0, P()) ==> Cong(Numerator(y), 0, P()))
  }

  /** Every point that decoding can produce represents a group element: the points of the curve and, should the
      denominator ever vanish, those it then leaves. */
  ghost predicate AllRepresented<T(!new)>(rep: (Point, T) -> bool) {
    forall p, y :: Decodes(p, y) ==> exists x :: rep(p, x)
  }

  /** p is a point that decoding y can produce. */
  ghost predicate Decodes(p: Point, y: int) {
    p.z == 1 && Extended(p) && Cong(p.y, y, P()) && (OnCurve(p) || Exceptional(y))
  }

  /** x is the opposite of the point encoded in s. */
  ghost predicate NegDecodes<T>(rep: (Point, T) -> bool, s: seq<u8>, x: T) {
    exists p :: rep(p, x) && NegEncoded(p, s)
  }

  /** p has the y coordinate encoded in s, and the other sign. */
  ghost predicate NegEncoded(p: Point, s: seq<u8>) {
    && |s| == 32 && p.z == 1 && OnCurve(p) && Cong(p.y, EncodedY(s), P())
    && (p.x % P() != 0 ==> (p.x % P()) % 2 != s[31] / 0x80)
  }

  method Decode<T(!new)>(s: seq<u8>, ghost g: Group<T>, ghost rep: (Point, T) -> bool) returns (status: int, h: Ge, ghost x: T)
    requires AllRepresented(rep) && |s| == 32
    ensures fresh(h.X) && fresh(h.Y) && fresh(h.Z) && fresh(h.T) && h.Shape()
    ensures (status == 0 || status == -1) && (status == 0 <==> Decodable(s))
    ensures status == 0 ==> Stands(rep, h, x) && (FieldFacts() ==> NegDecodes(rep, s, x))
  {
    hide Prod, Cong, P, Quartic, FeVal, Grown, OnCurve, Extended, Numerator, Denominator, EncodedY, UnitSquared;
    h := new Ge();
    status := GeFromBytesNeg(h, s);
    x := g.zero;
    if status == 0 {
      assert Decodes(h.Value(), EncodedY(s));
      x :| rep(h.Value(), x);
      assert FieldFacts() ==> !Exceptional(EncodedY(s));
    }
  }

  /** Whether the encoding of a point is that of the neutral one. */
  method IsZero<T(!new)>(h: Ge, ghost g: Group<T>, ghost rep: (Point, T) -> bool, ghost x: T) returns (zero: bool)
    requires Stands(rep, h, x)
    ensures FieldFacts() && Separates(g, rep) ==> (zero <==> x == g.zero)
  {
    hide *;
    StandsTidy(rep, h, x);
    var check := new u8[32];
    ghost var p := h.Value();
    ghost var ax, ay, w := GeToBytes(check, h);
    zero := check[..] == ZeroPoint();
    if FieldFacts() && Separates(g, rep) {
      UnitZ(g, rep, h, x);
      OneEncoded(check[..]);
      OneIff(ax, ay);
      OriginIff(p, ax, ay, w, P());
    }
  }

  lemma StandsTidy<T>(rep: (Point, T) -> bool, h: Ge, x: T)
    requires Stands(rep, h, x)
    ensures h.Shape() && h.Tidy() && Extended(h.Value())
  {
  }

  lemma UnitZ<T(!new)>(g: Group<T>, rep: (Point, T) -> bool, h: Ge, x: T)
    requires Separates(g, rep) && FieldFacts() && Stands(rep, h, x)
    ensures h.Shape() && h.Tidy() && UnitSquared(h.Value().z)
    ensures x == g.zero <==> Cong(h.Value().y, h.Value().z, P())
    ensures x == g.zero ==> Cong(h.Value().x, 0, P())
  {
    hide UnitSquared;
  }

  lemma OneEncoded(s: seq<u8>)
    requires |s| == 32
    ensures Num(s, 32) == 1 <==> s == ZeroPoint()
  {
    var z := ZeroPoint();
    OneValue(z, 32);
    if Num(s, 32) == 1 {
      NumInjective(s, z, 32);
    }
  }

  lemma {:induction false} OneValue(z: seq<u8>, n: nat)
    requires 1 <= n <= |z| && z[0] == 1 && forall k :: 1 <= k < n ==> z[k] == 0
    ensures Num(z, n) == 1
  {
    if n == 1 {
      assert Num(z, 0) == 0 && Pw8(0) == 1;
    } else {
      OneValue(z, n - 1);
    }
  }

  lemma OneIff(x: int, y: int)
    ensures y % P() + Pow2(255) * ((x % P()) % 2) == 1 <==> Cong(y, 1, P()) && (x % P()) % 2 == 0
  {
    hide *;
    TwoOrMore(254);
    CongOne(y, P());
    Mod2(x % P());
    OneOrMore(y % P(), (x % P()) % 2, Pow2(255));
  }

  lemma TwoOrMore(n: nat)
    ensures Pow2(n + 1) >= 2 && Pow2(n) >= 1
  {
  }

  lemma CongOne(y: int, p: nat)
    requires p > 1
    ensures Cong(y, 1, p) <==> y % p == 1
    ensures 0 <= y % p
  {
  }

  lemma Mod2(x: int)
    ensures 0 <= x % 2 <= 1
  {
  }

  lemma OneOrMore(y: int, b: int, t: int)
    requires 0 <= y && 0 <= b <= 1 && t >= 2
    ensures y + t * b == 1 <==> y == 1 && b == 0
  {
  }

  /** The affine coordinates are those of the neutral point. */
  lemma OriginIff(p: Point, x: int, y: int, w: int, m: int)
    requires 0 < m && Cong(Prod(w, p.z), 1, m) && Cong(x, Prod(p.x, w), m) && Cong(y, Prod(p.y, w), m)
    requires Cong(y * p.z, p.y, m) && (Cong(p.y, p.z, m) ==> Cong(p.x, 0, m))
    ensures Cong(y, 1, m) && (x % m) % 2 == 0 <==> Cong(p.y, p.z, m)
  {
    if Cong(p.y, p.z, m) {
      CongRefl(w, m);
      CongMul(p.x, 0, w, w, m);
      CongMul(p.y, p.z, w, w, m);
      assert Prod(w, p.z) == p.z * w;
      assert Cong(x, 0, m);
    }
    if Cong(y, 1, m) {
      CongRefl(p.z, m);
      CongMul(y, 1, p.z, p.z, m);
    }
  }

  /** The cofactored equation [8][s]B = [8]R + [8][h]A, for the opposites of A and R. */
  ghost predicate Equation<T(!new)>(g: Group<T>, b: T, s: nat, h: nat, minusA: T, minusR: T) {
    Multiple(g, 8, Multiple(g, s, b)) == Plus(g, Multiple(g, 8, g.neg(minusR)), Multiple(g, 8, Multiple(g, h, g.neg(minusA))))
  }

  /** minusA and minusR are the opposites of the points A and R, as far as these decode. */
  ghost predicate Opposites<T>(rep: (Point, T) -> bool, signature: seq<u8>, publicKey: seq<u8>, minusA: T, minusR: T) {
    && |signature| == 64
    && (Decodable(publicKey) ==> NegDecodes(rep, publicKey, minusA))
    && (Decodable(publicKey) && Decodable(signature[..32]) ==> NegDecodes(rep, signature[..32], minusR))
  }

  /** Both points decode, and s is canonical. */
  ghost predicate Wellformed(signature: seq<u8>, publicKey: seq<u8>) {
    && |signature| == 64 && Decodable(publicKey) && Decodable(signature[..32])
    && Num(signature[32..], 32) < ScalarModL.Ell()
  }

  /** A well-formed signature that satisfies the equation. */
  ghost predicate Accepted<T(!new)>(signature: seq<u8>, publicKey: seq<u8>, h: seq<u8>,
                                    g: Group<T>, b: T, minusA: T, minusR: T) {
    && Wellformed(signature, publicKey) && |h| == 32
    && Equation(g, b, Num(signature[32..], 32), Num(h, 32), minusA, minusR)
  }

  /** The verdict on a signature (R, s) for a public key and a reduced hash: 0 to accept, -1 to reject.
      The cofactored equation [8][s]B = [8]R + [8][h]A decides, once both points decode and s is canonical. */
  method CheckEquation<T(!new)>(window: seq<Niels>, signature: seq<u8>, publicKey: seq<u8>, h: seq<u8>,
                                ghost g: Group<T>, ghost rep: (Point, T) -> bool, ghost b: T)
    returns (status: int, ghost minusA: T, ghost minusR: T)
    requires CurveGroup(g, rep) && AllRepresented(rep) && Window(g, rep, window, b)
    requires |signature| == 64 && |publicKey| == |h| == 32 && Num(h, 32) < Pow2(253)
    ensures status == 0 || status == -1
    ensures status == 0 ==> Wellformed(signature, publicKey)
    ensures FieldFacts() ==> Opposites(rep, signature, publicKey, minusA, minusR)
    ensures FieldFacts() && Separates(g, rep) ==> (status == 0 <==> Accepted(signature, publicKey, h, g, b, minusA, minusR))
  {
    hide Decodable, NegDecodes, Equation, Num, Pow2, ScalarModL.Ell, ScalarModL.L, CurveGroup, FieldFacts, AllRepresented, Separates,
         Window, Stands, Caches, Precomputes, Abelian, Combination, Multiple, Plus, Val, P, Prod, Cong, FeVal, Grown;
    ZeroRep(g, rep);
    var s := signature[32..];
    var ok, sum, r;
    ok, sum, minusA := Decode(publicKey, g, rep);
    minusR := minusA;
    if ok != 0 {
      return -1, minusA, minusR;
    }
    ok, r, minusR := Decode(signature[..32], g, rep);
    if ok != 0 {
      return -1, minusA, minusR;
    }
    var s32 := Words(s, 8);
    var above := ScalarModL.IsAbove(s32, ScalarModL.L());
    Canonical(s, s32);
    if above == 1 {
      return -1, minusA, minusR;
    }
    MergedLadder(sum, s, h, window, g, rep, minusA, b);
    ghost var x := Combination(g, Num(s, 32), b, Num(h, 32), minusA);
    AddTimesEight(sum, r, g, rep, x, minusR);
    var zero := IsZero(sum, g, rep, Multiple(g, 8, Plus(g, x, minusR)));
    Cofactored(g, Num(s, 32), b, Num(h, 32), minusA, minusR);
    status := if zero then 0 else -1;
  }

  /** sum = [8](sum + r). */
  method AddTimesEight<T(!new)>(sum: Ge, r: Ge, ghost g: Group<T>, ghost rep: (Point, T) -> bool, ghost x: T, ghost y: T)
    requires CurveGroup(g, rep) && Stands(rep, sum, x) && Stands(rep, r, y)
    modifies sum.X, sum.Y, sum.Z, sum.T
    ensures Stands(rep, sum, Multiple(g, 8, Plus(g, x, y)))
  {
    hide *;
    ZeroRep(g, rep);
    var cached := Cache(r, g, rep, y);
    Add(sum, cached, g, rep, x, y);
    ghost var u := Plus(g, x, y);
    Double(sum, g, rep, u);
    Double(sum, g, rep, Plus(g, u, u));
    Double(sum, g, rep, Plus(g, Plus(g, u, u), Plus(g, u, u)));
    Eightfold(g, u);
  }

  lemma Eightfold<T(!new)>(g: Group<T>, u: T)
    requires Abelian(g)
    ensures var v := Plus(g, u, u); var w := Plus(g, v, v); Plus(g, w, w) == Multiple(g, 8, u)
  {
    hide Abelian, Multiple;
    MultipleZero(g, u);
    MultipleAdd(g, 1, 1, u);
    MultipleAdd(g, 2, 2, u);
    MultipleAdd(g, 4, 4, u);
  }

  /** A scalar below the group order fits the recoder. */
  lemma Canonical(s: seq<u8>, s32: seq<u32>)
    requires |s| == 32 && s32 == Words(s, 8)
    ensures Val(s32, 8) == Num(s, 32) && Val(ScalarModL.L(), 8) == ScalarModL.Ell()
    ensures Num(s, 32) < ScalarModL.Ell() ==> Num(s, 32) < Pow2(253)
  {
    NumIsVal(s, s32, 8);
    ScalarModL.LValue();
    Montgomery.EllBits();
    hide *;
  }

  /** The check against zero is the equation on A and R themselves. */
  lemma Cofactored<T(!new)>(g: Group<T>, s: nat, b: T, h: nat, minusA: T, minusR: T)
    requires Abelian(g)
    ensures Multiple(g, 8, Plus(g, Combination(g, s, b, h, minusA), minusR)) == g.zero
       <==> Equation(g, b, s, h, minusA, minusR)
  {
    hide Abelian, Multiple;
    var x, y := Multiple(g, s, b), Multiple(g, h, minusA);
    assert Combination(g, s, b, h, minusA) == g.add(x, y);
    MultipleOfNeg(g, h, minusA);
    EightTimes(g, x, y, minusR);
  }

  lemma EightTimes<T(!new)>(g: Group<T>, x: T, y: T, minusR: T)
    requires Abelian(g)
    ensures Multiple(g, 8, g.add(g.add(x, y), minusR)) == g.zero
       <==> Multiple(g, 8, x) == g.add(Multiple(g, 8, g.neg(minusR)), Multiple(g, 8, g.neg(y)))
  {
    hide *;
    var x8, y8, r8 := Multiple(g, 8, x), Multiple(g, 8, y), Multiple(g, 8, minusR);
    MultipleSum(g, 8, g.add(x, y), minusR);
    MultipleSum(g, 8, x, y);
    MultipleOfNeg(g, 8, y);
    MultipleOfNeg(g, 8, minusR);
    Assoc(g, x8, y8, r8);
    NegNeg(g, y8);
    NegNeg(g, r8);
    NegSum(g, g.neg(r8), g.neg(y8));
    Comm(g, y8, r8);
    ZeroDifference(g, x8, g.add(g.neg(r8), g.neg(y8)));
  }

  // Without any hypothesis on curve or field

  lemma AnyWindow(window: seq<Niels>)
    requires TightTable(window)
    ensures Window(One(), Any(), window, ())
  {
    hide TightEntry, Precomputes;
    forall j | 0 <= j < 8 ensures Precomputes(Any(), window[j], Multiple(One(), 2 * j + 1, ())) {
      AnyEntry(window[j]);
      OneElement(Multiple(One(), 2 * j + 1, ()));
    }
  }

  /** For every starting point, all scalars below 2^253 and every table of tight limbs, the merged ladder meets the bound of
      every product, square and copy, and ends with a tight point on which T * Z = X * Y. */
  method MergedLadderBounds(sum: Ge, s: seq<u8>, h: seq<u8>, window: seq<Niels>)
    requires Bounded(sum) && TightTable(window)
    requires |s| == |h| == 32 && Num(s, 32) < Pow2(253) && Num(h, 32) < Pow2(253)
    modifies sum.X, sum.Y, sum.Z, sum.T
    ensures Bounded(sum)
  {
    hide *;
    AnyPoint();
    AnyWindow(window);
    AnyStands(sum);
    MergedLadder(sum, s, h, window, One(), Any(), (), ());
    OneElement(Combination(One(), Num(s, 32), (), Num(h, 32), ()));
    AnyStands(sum);
  }

  /** The same of one turn of its loop, for any digits and any key table. */
  method IterationBounds(sum: Ge, sDigit: int, hDigit: int, lut: seq<Projective>, window: seq<Niels>)
    requires Bounded(sum) && TightTable(window) && |lut| == 2 && TightCached(lut[0]) && TightCached(lut[1])
    requires sDigit == 0 || Digit(sDigit, B_W_WIDTH)
    requires hDigit == 0 || Digit(hDigit, P_W_WIDTH)
    modifies sum.X, sum.Y, sum.Z, sum.T
    ensures Bounded(sum)
  {
    hide *;
    AnyPoint();
    AnyWindow(window);
    AnyLut(lut);
    AnyStands(sum);
    OneElement(Combination(One(), 0, (), 0, ()));
    Iteration(sum, sDigit, hDigit, lut, window, One(), Any(), (), (), 0, 0);
    OneElement(Combination(One(), 2 * 0 + sDigit, (), 2 * 0 + hDigit, ()));
    AnyStands(sum);
  }

  lemma AnyLut(lut: seq<Projective>)
    requires |lut| == 2 && TightCached(lut[0]) && TightCached(lut[1])
    ensures Lut(One(), Any(), lut, ())
  {
    AnyCached(lut[0]);
    AnyCached(lut[1]);
    OneElement(Multiple(One(), 1, ()));
    OneElement(Multiple(One(), 3, ()));
    hide Caches, TightCached, Multiple;
  }

  /** So does the multiplication by the cofactor. */
  method AddTimesEightBounds(sum: Ge, r: Ge)
    requires Bounded(sum) && Bounded(r)
    modifies sum.X, sum.Y, sum.Z, sum.T
    ensures Bounded(sum)
  {
    hide *;
    AnyPoint();
    AnyStands(sum);
    AnyStands(r);
    AddTimesEight(sum, r, One(), Any(), (), ());
    OneElement(Multiple(One(), 8, Plus(One(), (), ())));
    AnyStands(sum);
  }

  /** And the whole verdict, for every signature, public key and hash: it never leaves a bound, and accepts only well-formed ones. */
  method CheckEquationBounds(window: seq<Niels>, signature: seq<u8>, publicKey: seq<u8>, h: seq<u8>) returns (status: int)
    requires TightTable(window) && |signature| == 64 && |publicKey| == |h| == 32 && Num(h, 32) < Pow2(253)
    ensures status == 0 || status == -1
    ensures status == 0 ==> Wellformed(signature, publicKey)
  {
    hide *;
    AnyPoint();
    AnyWindow(window);
    AnyRepresented();
    ghost var a, r;
    status, a, r := CheckEquation(window, signature, publicKey, h, One(), Any(), ());
  }

  lemma AnyRepresented()
    ensures AllRepresented(Any())
  {
    hide Decodes;
    forall p, y | Decodes(p, y) ensures exists x :: Any()(p, x) {
      assert Any()(p, ());
    }
  }
}
