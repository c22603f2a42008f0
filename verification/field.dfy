/** The field modulo 2^255 - 19 in ten signed limbs of alternately 26 and 25 bits: carrying,
    multiplication and squaring, with their overflow bounds. */
module Field25519 {
  import opened Arith

  type i32 = x: int | -0x8000_0000 <= x < 0x8000_0000
  type i64 = x: int | -0x8000_0000_0000_0000 <= x < 0x8000_0000_0000_0000

  /** 2^255 - 19. */
  function P(): (p: nat)
    ensures p > 19
  {
    0x7fffffffffffffffffffffffffffffffffffffffffffffffffffffffffffffed
  }

  /** Limb i carries 26 bits if i is even and 25 if it is odd. */
  function Radix(i: nat): (r: nat)
    ensures r > 1
  {
    if i % 2 == 0 then 0x400_0000 else 0x200_0000
  }

  /** The weight of limb i: 2 to the power of 25.5 * i, rounded up. */
  function W(i: nat): (w: nat)
    ensures w > 0
  {
    if i == 0 then 1 else Radix(i - 1) * W(i - 1)
  }

  /** The integer that the first n limbs denote. */
  function Sum(t: seq<int>, n: nat): int
    requires n <= |t|
  {
    if n == 0 then 0 else Sum(t, n - 1) + W(n - 1) * t[n - 1]
  }

  /** The integer that a field element denotes; it is meant modulo P. */
  function FeVal(t: seq<int>): int
    requires |t| == 10
  {
    Sum(t, 10)
  }

  lemma {:induction false} SumUpdate(t: seq<int>, i: nat, v: int, n: nat)
    requires n <= |t| && i < |t|
    ensures Sum(t[i := v], n) == if i < n then Sum(t, n) + W(i) * (v - t[i]) else Sum(t, n)
  {
    if n == 0 {
    } else {
      SumUpdate(t, i, v, n - 1);
      MulDistr(W(i), v, -t[i]);
    }
  }

  /** The weight past the last limb is 2^255. */
  lemma TopWeight()
    ensures W(10) == P() + 19
  {
    assert W(2) == 0x8_0000_0000_0000;
    assert W(4) == 0x40_0000_0000_0000_0000_0000_0000;
    assert W(6) == 0x200_0000_0000_0000_0000_0000_0000_0000_0000_0000;
    assert W(8) == 0x1000_0000_0000_0000_0000_0000_0000_0000_0000_0000_0000_0000_0000;
  }

  /** The carry out of limb i: its quotient by the radix, rounded to nearest. */
  function CarryOut(t: seq<int>, i: nat): int
    requires i < |t|
  {
    (t[i] + Radix(i) / 2) / Radix(i)
  }

  /** Moves the carry of limb i to the next limb; out of the last one it returns times 19. */
  function CarryAt(t: seq<int>, i: nat): (u: seq<int>)
    requires |t| == 10 && i < 10
    ensures |u| == 10
  {
    var c := CarryOut(t, i);
    var u := t[i := t[i] - c * Radix(i)];
    if i < 9 then u[i + 1 := u[i + 1] + c] else u[0 := u[0] + c * 19]
  }

  lemma CarryAtVal(t: seq<int>, i: nat)
    requires |t| == 10 && i < 10
    ensures Cong(FeVal(CarryAt(t, i)), FeVal(t), P())
  {
    var c, r, w := CarryOut(t, i), Radix(i), W(i);
    var u := t[i := t[i] - c * r];
    SumUpdate(t, i, t[i] - c * r, 10);
    if i < 9 {
      SumUpdate(u, i + 1, u[i + 1] + c, 10);
      assert W(i + 1) == r * w;
      Moved(w, r, c);
      CongIntro(FeVal(CarryAt(t, i)), FeVal(t), 0, P());
    } else {
      SumUpdate(u, 0, u[0] + c * 19, 10);
      TopWeight();
      assert W(10) == r * w;
      Moved(w, r, c);
      MulSub(c, W(10), 19);
      CongIntro(FeVal(CarryAt(t, i)), FeVal(t), -c, P());
    }
  }

  lemma Moved(w: int, r: int, c: int)
    ensures w * (-(c * r)) == -((r * w) * c)
  {
  }

  /** Every limb lies within the limit given for it. */
  ghost predicate Within(t: seq<int>, b: seq<int>)
    requires |t| == |b| == 10
  {
    forall k :: 0 <= k < 10 ==> -b[k] <= t[k] <= b[k]
  }

  /** The limits after one carry, from the limits before. */
  function CarryLimits(b: seq<int>, i: nat): (d: seq<int>)
    requires |b| == 10 && i < 10
    ensures |d| == 10
  {
    var c := b[i] / Radix(i) + 1;
    var d := b[i := Radix(i) / 2];
    if i < 9 then d[i + 1 := d[i + 1] + c] else d[0 := d[0] + c * 19]
  }

  lemma CarryWithin(t: seq<int>, b: seq<int>, i: nat)
    requires |t| == |b| == 10 && i < 10 && Within(t, b)
    ensures Within(CarryAt(t, i), CarryLimits(b, i))
    ensures -(b[i] / Radix(i) + 1) <= CarryOut(t, i) <= b[i] / Radix(i) + 1
  {
    var r, c, m := Radix(i), CarryOut(t, i), b[i] / Radix(i) + 1;
    CarryRange(t[i], b[i], r, c);
    var u := t[i := t[i] - c * r];
    assert Within(u, b[i := r / 2]);
  }

  lemma CarryRange(x: int, b: int, r: nat, c: int)
    requires r == 0x400_0000 || r == 0x200_0000
    requires -b <= x <= b && c == (x + r / 2) / r
    ensures -(b / r + 1) <= c <= b / r + 1
    ensures -(r / 2) <= x - c * r <= r / 2
  {
  }

  /** The order in which the carries are propagated. */
  function Order(): seq<nat> {
    [0, 4, 1, 5, 2, 6, 3, 7, 4, 8, 9, 0]
  }

  /** The limbs after the first n carries. */
  function CarriedBy(t: seq<int>, n: nat): (u: seq<int>)
    requires |t| == 10 && n <= 12
    ensures |u| == 10
  {
    if n == 0 then t else CarryAt(CarriedBy(t, n - 1), Order()[n - 1])
  }

  /** The limbs after full carry propagation. */
  function Carried(t: seq<int>): (u: seq<int>)
    requires |t| == 10
    ensures |u| == 10
  {
    CarriedBy(t, 12)
  }

  lemma {:induction false} CarriedVal(t: seq<int>, n: nat)
    requires |t| == 10 && n <= 12
    ensures Cong(FeVal(CarriedBy(t, n)), FeVal(t), P())
  {
    if n == 0 {
    } else {
      CarriedVal(t, n - 1);
      CarryAtVal(CarriedBy(t, n - 1), Order()[n - 1]);
    }
  }

  /** Limbs that can be carried. The source states 2^63 for the first one; the addition that rounds it needs 2^25 of that,
      see CarriesFit. */
  ghost predicate Carriable(t: seq<int>) {
    Stated(t) && t[0] + 0x200_0000 < 0x8000_0000_0000_0000
  }

  /** The stated bounds: 64 bits with sign for the first limb, 2^62 for the others. */
  ghost predicate Stated(t: seq<int>) {
    && |t| == 10 && -0x8000_0000_0000_0000 <= t[0] < 0x8000_0000_0000_0000
    && forall k :: 1 <= k < 10 ==> -0x4000_0000_0000_0000 <= t[k] <= 0x4000_0000_0000_0000
  }

  /** The limits before each carry. */
  function Limits(n: nat): (b: seq<int>)
    requires n <= 12
    ensures |b| == 10
  {
    if n == 0 then [0x8000_0000_0000_0000] + seq(9, _ => 0x4000_0000_0000_0000) else CarryLimits(Limits(n - 1), Order()[n - 1])
  }

  lemma StatedWithin(t: seq<int>)
    requires Stated(t)
    ensures Within(t, Limits(0))
  {
  }

  lemma {:induction false} CarriedWithin(t: seq<int>, n: nat)
    requires |t| == 10 && n <= 12 && Stated(t)
    ensures Within(CarriedBy(t, n), Limits(n))
  {
    hide *;
    if n == 0 {
      StatedWithin(t);
      NoCarry(t);
    } else {
      CarriedWithin(t, n - 1);
      OrderRange(n - 1);
      CarryWithin(CarriedBy(t, n - 1), Limits(n - 1), Order()[n - 1]);
      NextCarry(t, n);
    }
  }

  lemma NoCarry(t: seq<int>)
    requires |t| == 10
    ensures CarriedBy(t, 0) == t
  {
  }

  lemma OrderRange(n: nat)
    requires n < 12
    ensures |Order()| == 12 && Order()[n] < 10
  {
  }

  lemma NextCarry(t: seq<int>, n: nat)
    requires |t| == 10 && 0 < n <= 12
    ensures |Order()| == 12 && Order()[n - 1] < 10
    ensures CarriedBy(t, n) == CarryAt(CarriedBy(t, n - 1), Order()[n - 1])
    ensures Limits(n) == CarryLimits(Limits(n - 1), Order()[n - 1])
  {
    hide CarryAt, CarryLimits;
  }

  /** Two carries in a row. */
  lemma TwoCarries(n: nat)
    requires n <= 10
    ensures |Order()| == 12 && Order()[n] < 10 && Order()[n + 1] < 10
    ensures Limits(n + 2) == CarryLimits(CarryLimits(Limits(n), Order()[n]), Order()[n + 1])
  {
    hide *;
    NextCarry(seq(10, _ => 0), n + 1);
    NextCarry(seq(10, _ => 0), n + 2);
  }

  lemma FirstLimits()
    ensures CarryLimits(CarryLimits([0x8000_0000_0000_0000, 0x4000_0000_0000_0000, 0x4000_0000_0000_0000, 0x4000_0000_0000_0000, 0x4000_0000_0000_0000,
                                     0x4000_0000_0000_0000, 0x4000_0000_0000_0000, 0x4000_0000_0000_0000, 0x4000_0000_0000_0000, 0x4000_0000_0000_0000], 0), 4)
         == [0x200_0000, 4611686155866341377, 0x4000_0000_0000_0000, 0x4000_0000_0000_0000, 0x200_0000,
             4611686087146864641, 0x4000_0000_0000_0000, 0x4000_0000_0000_0000, 0x4000_0000_0000_0000, 0x4000_0000_0000_0000]
  {
  }

  lemma SecondLimits()
    ensures CarryLimits(CarryLimits([0x200_0000, 4611686155866341377, 0x4000_0000_0000_0000, 0x4000_0000_0000_0000, 0x200_0000,
                                     4611686087146864641, 0x4000_0000_0000_0000, 0x4000_0000_0000_0000, 0x4000_0000_0000_0000, 0x4000_0000_0000_0000], 1), 5)
         == [0x200_0000, 0x100_0000, 4611686155866345473, 0x4000_0000_0000_0000, 0x200_0000,
             0x100_0000, 4611686155866343425, 0x4000_0000_0000_0000, 0x4000_0000_0000_0000, 0x4000_0000_0000_0000]
  {
  }

  lemma ThirdLimits()
    ensures CarryLimits(CarryLimits([0x200_0000, 0x100_0000, 4611686155866345473, 0x4000_0000_0000_0000, 0x200_0000,
                                     0x100_0000, 4611686155866343425, 0x4000_0000_0000_0000, 0x4000_0000_0000_0000, 0x4000_0000_0000_0000], 2), 6)
         == [0x200_0000, 0x100_0000, 0x200_0000, 4611686087146866689, 0x200_0000,
             0x100_0000, 0x200_0000, 4611686087146866689, 0x4000_0000_0000_0000, 0x4000_0000_0000_0000]
  {
  }

  lemma FourthLimits()
    ensures CarryLimits(CarryLimits([0x200_0000, 0x100_0000, 0x200_0000, 4611686087146866689, 0x200_0000,
                                     0x100_0000, 0x200_0000, 4611686087146866689, 0x4000_0000_0000_0000, 0x4000_0000_0000_0000], 3), 7)
         == [0x200_0000, 0x100_0000, 0x200_0000, 0x100_0000, 137472509953,
             0x100_0000, 0x200_0000, 0x100_0000, 4611686155866343425, 0x4000_0000_0000_0000]
  {
  }

  lemma FifthLimits()
    ensures CarryLimits(CarryLimits([0x200_0000, 0x100_0000, 0x200_0000, 0x100_0000, 137472509953,
                                     0x100_0000, 0x200_0000, 0x100_0000, 4611686155866343425, 0x4000_0000_0000_0000], 4), 8)
         == [0x200_0000, 0x100_0000, 0x200_0000, 0x100_0000, 0x200_0000,
             16779265, 0x200_0000, 0x100_0000, 0x200_0000, 4611686087146866689]
  {
  }

  lemma LastLimits()
    ensures CarryLimits(CarryLimits([0x200_0000, 0x100_0000, 0x200_0000, 0x100_0000, 0x200_0000,
                                     16779265, 0x200_0000, 0x100_0000, 0x200_0000, 4611686087146866689], 9), 0)
         == [0x200_0000, 16816129, 0x200_0000, 0x100_0000, 0x200_0000,
             16779265, 0x200_0000, 0x100_0000, 0x200_0000, 0x100_0000]
  {
  }

  lemma LimitsEnd()
    ensures Limits(12) == [0x200_0000, 16816129, 0x200_0000, 0x100_0000, 0x200_0000,
                           16779265, 0x200_0000, 0x100_0000, 0x200_0000, 0x100_0000]
  {
    hide *;
    StartLimits();
    TwoCarries(0);
    TwoCarries(2);
    TwoCarries(4);
    TwoCarries(6);
    TwoCarries(8);
    TwoCarries(10);
    OrderIs();
    FirstLimits();
    SecondLimits();
    ThirdLimits();
    FourthLimits();
    FifthLimits();
    LastLimits();
  }

  lemma StartLimits()
    ensures Limits(0) == [0x8000_0000_0000_0000, 0x4000_0000_0000_0000, 0x4000_0000_0000_0000, 0x4000_0000_0000_0000, 0x4000_0000_0000_0000,
                           0x4000_0000_0000_0000, 0x4000_0000_0000_0000, 0x4000_0000_0000_0000, 0x4000_0000_0000_0000, 0x4000_0000_0000_0000]
  {
  }

  lemma OrderIs()
    ensures Order() == [0, 4, 1, 5, 2, 6, 3, 7, 4, 8, 9, 0]
  {
  }

  /** Limbs as full carry propagation leaves them. */
  ghost predicate Tight(f: seq<int>) {
    |f| == 10 && forall i :: 0 <= i < 10 ==>
      if i % 2 == 0 then -36909875 <= f[i] <= 36909875 else -18454937 <= f[i] <= 18454937
  }

  /** Limbs that a product accepts: sums of up to three tight ones. */
  ghost predicate Loose(f: seq<int>) {
    |f| == 10 && forall i :: 0 <= i < 10 ==>
      if i % 2 == 0 then -110729625 <= f[i] <= 110729625 else -55364812 <= f[i] <= 55364812
  }

  lemma CarriedTight(t: seq<int>)
    requires Stated(t)
    ensures Tight(Carried(t)) && Cong(FeVal(Carried(t)), FeVal(t), P())
  {
    CarriedVal(t, 12);
    CarriedWithin(t, 12);
    LimitsEnd();
    hide Limits, CarriedBy, Cong, FeVal, P;
  }

  predicate Fits(x: int) {
    -0x8000_0000_0000_0000 <= x < 0x8000_0000_0000_0000
  }

  /** No 64-bit intermediate of one carry overflows. */
  ghost predicate CarryFits(t: seq<int>, i: nat)
    requires |t| == 10 && i < 10
  {
    var c := CarryOut(t, i);
    && Fits(t[i] + Radix(i) / 2) && Fits(c) && Fits(c * Radix(i)) && Fits(t[i] - c * Radix(i))
    && Fits(CarryAt(t, i)[(i + 1) % 10]) && (i == 9 ==> Fits(c * 19))
  }

  /** One carry in place. */
  method CarryLimb(t: array<i64>, i: nat)
    requires t.Length == 10 && i < 10 && CarryFits(t[..], i)
    modifies t
    ensures t[..] == CarryAt(old(t[..]), i)
  {
    var r: i64 := Radix(i);
    var x: i64 := t[i] + r / 2;
    var c: i64 := x / r;
    var m: i64 := c * r;
    t[i] := t[i] - m;
    if i < 9 {
      t[i + 1] := t[i + 1] + c;
    } else {
      var d: i64 := c * 19;
      t[0] := t[0] + d;
    }
  }

  /** The limits after the first carry stay far below 2^63. */
  lemma {:induction false} LimitsSmall(n: nat)
    requires 1 <= n <= 12
    ensures Below(Limits(n), 0x4000_0000_0000_0000 + n * 0x800_0000_0000)
  {
    hide *;
    NextCarry(seq(10, _ => 0), n);
    if n == 1 {
      LimitsOne();
    } else {
      LimitsSmall(n - 1);
      LimitsStep(Limits(n - 1), Order()[n - 1], 0x4000_0000_0000_0000 + (n - 1) * 0x800_0000_0000);
    }
  }

  ghost predicate Below(b: seq<int>, m: int)
    requires |b| == 10
  {
    forall k :: 0 <= k < 10 ==> 0 <= b[k] <= m
  }

  lemma LimitsOne()
    ensures Below(Limits(1), 0x4000_0000_0000_0000 + 0x800_0000_0000)
  {
  }

  lemma LimitsStep(b: seq<int>, i: nat, m: nat)
    requires |b| == 10 && i < 10 && m <= 0x4001_0000_0000_0000 && Below(b, m)
    ensures Below(CarryLimits(b, i), m + 0x800_0000_0000)
  {
  }

  /** Within limits, a carry fits exactly if the limb can be rounded. */
  lemma CarryFitsIff(t: seq<int>, b: seq<int>, i: nat)
    requires |t| == |b| == 10 && i < 10 && Within(t, b) && Fits(t[i]) && 0 <= b[i] <= 0x8000_0000_0000_0000
    requires CarryLimits(b, i)[(i + 1) % 10] < 0x8000_0000_0000_0000 && (i == 9 ==> b[i] <= 0x4001_0000_0000_0000)
    ensures CarryFits(t, i) <==> t[i] + Radix(i) / 2 < 0x8000_0000_0000_0000
  {
    CarryWithin(t, b, i);
    var c, r := CarryOut(t, i), Radix(i);
    Rounding(t[i], r, c);
    var k := (i + 1) % 10;
    assert -CarryLimits(b, i)[k] <= CarryAt(t, i)[k] <= CarryLimits(b, i)[k];
    hide CarryAt, CarryLimits, Radix, CarryOut;
  }

  lemma Rounding(x: int, r: int, c: int)
    requires r == 0x400_0000 || r == 0x200_0000
    requires Fits(x) && c == (x + r / 2) / r
    ensures Fits(c) && Fits(c * 19) && Fits(x - c * r)
    ensures x + r / 2 < 0x8000_0000_0000_0000 ==> Fits(c * r) && Fits(x + r / 2)
  {
  }

  /** All twelve carries. */
  ghost predicate AllFit(t: seq<int>)
    requires |t| == 10
  {
    forall n :: 0 <= n < 12 ==> CarryFits(CarriedBy(t, n), Order()[n])
  }

  lemma LaterFits(t: seq<int>, n: nat)
    requires |t| == 10 && Stated(t) && 1 <= n < 12 && |Order()| == 12 && Order()[n] < 10
    ensures CarryFits(CarriedBy(t, n), Order()[n])
  {
    hide *;
    CarriedWithin(t, n);
    LimitsSmall(n);
    LimitsSmall(n + 1);
    NextCarry(t, n + 1);
    WithinBelow(CarriedBy(t, n), Limits(n), 0x4000_0000_0000_0000 + n * 0x800_0000_0000, Order()[n]);
    BelowAt(Limits(n + 1), 0x4000_0000_0000_0000 + (n + 1) * 0x800_0000_0000, (Order()[n] + 1) % 10);
    RadixSmall(Order()[n]);
    FitsIs(CarriedBy(t, n)[Order()[n]]);
    CarryFitsIff(CarriedBy(t, n), Limits(n), Order()[n]);
  }

  lemma FitsIs(x: int)
    ensures Fits(x) <==> -0x8000_0000_0000_0000 <= x < 0x8000_0000_0000_0000
  {
  }

  lemma WithinBelow(t: seq<int>, b: seq<int>, m: int, i: nat)
    requires |t| == |b| == 10 && i < 10 && Within(t, b) && Below(b, m)
    ensures -m <= t[i] <= m && 0 <= b[i] <= m
  {
  }

  lemma BelowAt(b: seq<int>, m: int, i: nat)
    requires |b| == 10 && i < 10 && Below(b, m)
    ensures b[i] <= m
  {
  }

  lemma RadixSmall(i: nat)
    ensures Radix(i) / 2 <= 0x200_0000
  {
  }

  lemma FirstFits(t: seq<int>)
    requires Stated(t)
    ensures CarryFits(CarriedBy(t, 0), Order()[0]) <==> t[0] + 0x200_0000 < 0x8000_0000_0000_0000
  {
    StatedWithin(t);
    CarryFitsIff(t, Limits(0), 0);
  }

  /** Within the stated bounds, the 64-bit arithmetic of the carries is exact if and only if the first limb can be rounded. */
  lemma CarriesFit(t: seq<int>)
    requires Stated(t)
    ensures AllFit(t) <==> Carriable(t)
  {
    hide CarryFits, CarriedBy;
    FirstFits(t);
    forall n | 1 <= n < 12 ensures CarryFits(CarriedBy(t, n), Order()[n]) {
      LaterFits(t, n);
    }
  }

  /** The stated bound alone does not suffice: rounding the largest first limb overflows. */
  lemma StatedOverflows() returns (t: seq<int>)
    ensures Stated(t) && !AllFit(t)
  {
    t := [0x7fff_ffff_ffff_ffff] + seq(9, _ => 0);
    CarriesFit(t);
  }

  /** Carry number n, from limb i. */
  method CarryStep(t: array<i64>, i: nat, ghost limbs: seq<int>, ghost n: nat)
    requires t.Length == |limbs| == 10 && n < 12 && |Order()| == 12 && Order()[n] == i && AllFit(limbs)
    requires t[..] == CarriedBy(limbs, n)
    modifies t
    ensures t[..] == CarriedBy(limbs, n + 1)
  {
    hide CarryFits;
    CarryLimb(t, i);
  }

  /** The twelve carries. */
  method CarryAll(t: array<i64>, ghost limbs: seq<int>)
    requires t.Length == |limbs| == 10 && t[..] == limbs && AllFit(limbs)
    modifies t
    ensures t[..] == Carried(limbs)
  {
    hide *;
    NoCarry(limbs);
    AllCarries(limbs);
    OrderIs();
    CarryStep(t, 0, limbs, 0);
    CarryStep(t, 4, limbs, 1);
    CarryStep(t, 1, limbs, 2);
    CarryStep(t, 5, limbs, 3);
    CarryStep(t, 2, limbs, 4);
    CarryStep(t, 6, limbs, 5);
    CarryStep(t, 3, limbs, 6);
    CarryStep(t, 7, limbs, 7);
    CarryStep(t, 4, limbs, 8);
    CarryStep(t, 8, limbs, 9);
    CarryStep(t, 9, limbs, 10);
    CarryStep(t, 0, limbs, 11);
  }

  lemma AllCarries(t: seq<int>)
    requires |t| == 10
    ensures Carried(t) == CarriedBy(t, 12)
  {
    hide CarriedBy;
  }

  lemma StatedCarriable(t: seq<int>)
    requires Carriable(t)
    ensures |t| == 10 && Stated(t)
  {
  }

  /** Propagates the carries of ten wide limbs and narrows them to 32 bits. */
  method FeCarry(h: array<i32>, limbs: seq<i64>)
    requires h.Length == 10 && Carriable(limbs)
    modifies h
    ensures h[..] == Carried(limbs) && Tight(h[..]) && Cong(FeVal(h[..]), FeVal(limbs), P())
  {
    hide *;
    StatedCarriable(limbs);
    CarriesFit(limbs);
    CarriedTight(limbs);
    var t := new i64[10](i requires 0 <= i < 10 => limbs[i]);
    assert t[..] == limbs;
    CarryAll(t, limbs);
    Narrow(h, t);
  }

  /** Tight limbs fit 32 bits. */
  method Narrow(h: array<i32>, t: array<i64>)
    requires h.Length == t.Length == 10 && Tight(t[..])
    modifies h
    ensures h[..] == t[..]
  {
    for i := 0 to 10
      invariant t[..] == old(t[..])
      invariant forall k :: 0 <= k < i ==> h[k] == t[k]
    {
      h[i] := t[i];
    }
  }
}
