/** The canonical encoding of a field element: full reduction without a comparison with the prime. */
module FieldEncode {
  import opened Arith
  import opened Bits
  import opened Limbs
  import opened Bytes
  import opened Field25519
  import opened FieldCodec

  /** Floor division by W(n + 1) is division by W(n) followed by division by the radix. */
  lemma NestedFloor(x: int, w: nat, t: int, r: nat)
    requires 0 < w && 0 < r
    ensures 0 < r * w && (x + w * t) / (r * w) == (x / w + t) / r
  {
    var a, b := x / w, x % w;
    var q, m := (a + t) / r, (a + t) % r;
    assert x == w * a + b && a + t == r * q + m;
    hide *;
    Nested(w, a, b, t, r, q, m);
    DivModUnique(x + w * t, q, w * m + b, r * w);
  }

  lemma Nested(w: nat, a: int, b: int, t: int, r: nat, q: int, m: int)
    requires a + t == r * q + m && 0 <= b < w && 0 <= m < r
    ensures w * a + b + w * t == q * (r * w) + (w * m + b) && 0 <= w * m + b < r * w
  {
    MulLe(w, 0, m);
    MulLe(w, m, r - 1);
    MulSub(w, r, 1);
    MulDistr(w, a, t);
    MulDistr(w, r * q, m);
    assert w * (r * q) == q * (r * w);
  }

  /** The running quotient of the sum so far, started at q0. */
  ghost predicate Floors(q: int, q0: int, h: seq<int>, n: nat)
    requires n <= |h|
  {
    q == (q0 + Sum(h, n)) / W(n)
  }

  lemma FloorsStep(q: int, q0: int, h: seq<int>, n: nat)
    requires n < |h| && Floors(q, q0, h, n)
    ensures Floors((q + h[n]) / Radix(n), q0, h, n + 1)
  {
    NestedFloor(q0 + Sum(h, n), W(n), h[n], Radix(n));
  }

  /** Tight limbs denote less than 0.6 times the next weight. */
  lemma {:induction false} TightSum(h: seq<int>, n: nat)
    requires Tight(h) && n <= 10
    ensures -3 * W(n) <= 5 * Sum(h, n) <= 3 * W(n)
  {
    if n == 0 {
    } else {
      TightSum(h, n - 1);
      TightStep(W(n - 1), Radix(n - 1), h[n - 1], Sum(h, n - 1));
    }
  }

  lemma TightStep(w: nat, r: nat, t: int, s: int)
    requires r >= 0x200_0000 && -11 * r <= 20 * t <= 11 * r && -3 * w <= 5 * s <= 3 * w
    ensures -3 * (r * w) <= 5 * (s + w * t) <= 3 * (r * w)
  {
    MulLe(w, 20 * t, 11 * r);
    MulLe(w, -11 * r, 20 * t);
    MulLe(w, 0x200_0000, r);
    assert w * (20 * t) == 20 * (w * t) && w * (11 * r) == 11 * (r * w) && w * (-11 * r) == -11 * (r * w);
    assert w * r == r * w;
  }

  /** What the first pass finds: 0 for a natural, -1 for a negative number. */
  lemma SignFound(h: seq<int>, q0: int, q: int)
    requires Tight(h) && q0 == (19 * h[9] + 0x100_0000) / 0x200_0000 && Floors(q, q0, h, 10)
    ensures q == if FeVal(h) >= 0 then 0 else -1
  {
    TightSum(h, 9);
    TightSum(h, 10);
    assert FeVal(h) == Sum(h, 9) + W(9) * h[9] && W(10) == 0x200_0000 * W(9);
    WPow2(9);
    Pow2Values();
    Pow2Mono(26, 230);
    hide *;
    SignOf(Sum(h, 9), h[9], FeVal(h), W(9), W(10), q0);
    if FeVal(h) >= 0 {
      DivModUnique(q0 + FeVal(h), 0, q0 + FeVal(h), W(10));
    } else {
      DivModUnique(q0 + FeVal(h), -1, q0 + FeVal(h) + W(10), W(10));
    }
  }

  /** The rounded top limb never moves the number across zero. */
  lemma SignOf(low: int, t: int, v: int, w: nat, w10: nat, q0: int)
    requires w >= 0x400_0000 && w10 == 0x200_0000 * w && v == low + w * t
    requires -3 * w <= 5 * low <= 3 * w && -3 * w10 <= 5 * v <= 3 * w10
    requires q0 == (19 * t + 0x100_0000) / 0x200_0000 && -18454937 <= t <= 18454937
    ensures v >= 0 ==> 0 <= q0 + v < w10
    ensures v < 0 ==> 0 <= q0 + v + w10 && q0 + v < 0
  {
    if t >= 1 {
      MulLe(w, 1, t);
    } else if t <= -1 {
      MulLe(w, t, -1);
    }
  }

  /** After n limbs of the second pass: they are in their positive range, and q is owed above. */
  ghost predicate Reducing(t: seq<int>, q: int, c: int, h: seq<int>, n: nat)
    requires |t| == |h| == 10 && n <= 10
  {
    && (forall k :: 0 <= k < n ==> 0 <= t[k] < Radix(k))
    && (forall k :: n <= k < 10 ==> t[k] == h[k])
    && Sum(t, n) + W(n) * q == Sum(h, n) + c
  }

  lemma ReducingStep(t: seq<int>, q: int, c: int, h: seq<int>, n: nat, u: seq<int>, q': int)
    requires |t| == |h| == |u| == 10 && n < 10 && Reducing(t, q, c, h, n)
    requires q' == (t[n] + q) / Radix(n) && u == t[n := t[n] + q - q' * Radix(n)]
    ensures Reducing(u, q', c, h, n + 1)
  {
    SumUpdate(t, n, u[n], n);
    var w, r := W(n), Radix(n);
    assert Sum(u, n + 1) == Sum(t, n) + w * (t[n] + q - q' * r);
    MulDistr(w, t[n] + q, -(q' * r));
    MulDistr(w, t[n], q);
    Moved(w, r, q');
  }

  /** Limbs in their positive range denote a natural below the next weight. */
  lemma {:induction false} RangeSum(t: seq<int>, n: nat)
    requires n <= |t| && forall k :: 0 <= k < n ==> 0 <= t[k] < Radix(k)
    ensures 0 <= Sum(t, n) < W(n)
  {
    if n == 0 {
    } else {
      RangeSum(t, n - 1);
      MulLe(W(n - 1), t[n - 1], Radix(n - 1) - 1);
      MulLe(W(n - 1), 0, t[n - 1]);
      MulSub(W(n - 1), Radix(n - 1), 1);
    }
  }

  /** The limbs left by the second pass denote the representative in [0, p). */
  lemma FullyReduced(t: seq<int>, h: seq<int>, q: int, q': int)
    requires Tight(h) && |t| == 10 && q == (if FeVal(h) >= 0 then 0 else -1)
    requires Reducing(t, q', 19 * q, h, 10)
    ensures Sum(t, 10) == FeVal(h) % P()
  {
    Reduced(t, h, q, q');
    TightSum(h, 10);
    hide *;
    TopWeight();
    RangeSum(t, 10);
    Representative(FeVal(h), W(10), Sum(t, 10), q, q', P());
  }

  lemma Representative(v: int, w: int, x: int, q: int, q': int, p: int)
    requires w == p + 19 && 0 <= x < w && p > 0x100 && q == (if v >= 0 then 0 else -1) && x + w * q' == v + 19 * q
    requires -3 * w <= 5 * v <= 3 * w
    ensures x == v % p
  {
    if v >= 0 {
      DivModUnique(v, q', x, w);
      DivModUnique(v, 0, v, w);
      DivModUnique(v, 0, v, p);
    } else {
      DivModUnique(v - 19, q', x, w);
      DivModUnique(v - 19, -1, v - 19 + w, w);
      DivModUnique(v, -1, v + p, p);
    }
  }

  lemma Reduced(t: seq<int>, h: seq<int>, q: int, q': int)
    requires |t| == |h| == 10 && Reducing(t, q', 19 * q, h, 10)
    ensures Sum(t, 10) + W(10) * q' == FeVal(h) + 19 * q && W(10) >= 0x100
    ensures forall k :: 0 <= k < 10 ==> 0 <= t[k] < Radix(k)
  {
    WPow2(10);
    Pow2Values();
    Pow2Mono(8, 255);
    hide Sum, Pow2, W;
  }

  /** The first pass: the sign of the element, as 0 or -1. */
  method Sign(t: array<i32>) returns (q: i32)
    requires t.Length == 10 && Tight(t[..])
    ensures q == if FeVal(t[..]) >= 0 then 0 else -1
  {
    hide *;
    ghost var h := t[..];
    TightLimb(h, 9);
    q := (19 * t[9] + 0x100_0000) / 0x200_0000;
    ghost var q0: int := q;
    NoFloors(q, h);
    for i := 0 to 5
      invariant -16 <= q <= 16 && Floors(q, q0, h, 2 * i)
    {
      Radices(i);
      q := FloorLimb(t, 2 * i, q, 0x400_0000, q0);
      q := FloorLimb(t, 2 * i + 1, q, 0x200_0000, q0);
    }
    SignFound(h, q0, q);
  }

  method FloorLimb(t: array<i32>, n: nat, q: i32, r: i32, ghost q0: int) returns (q': i32)
    requires t.Length == 10 && n < 10 && r == Radix(n) && Tight(t[..]) && -16 <= q <= 16 && Floors(q, q0, t[..], n)
    ensures -16 <= q' <= 16 && Floors(q', q0, t[..], n + 1)
  {
    hide *;
    TightLimb(t[..], n);
    FloorsStep(q, q0, t[..], n);
    q' := (q + t[n]) / r;
  }

  lemma TightLimb(f: seq<int>, n: nat)
    requires Tight(f) && n < 10
    ensures |f| == 10 && (if n % 2 == 0 then -36909875 <= f[n] <= 36909875 else -18454937 <= f[n] <= 18454937)
    ensures Radix(n) == if n % 2 == 0 then 0x400_0000 else 0x200_0000
  {
  }

  lemma Radices(i: nat)
    ensures Radix(2 * i) == 0x400_0000 && Radix(2 * i + 1) == 0x200_0000
  {
  }

  lemma NoFloors(q: int, h: seq<int>)
    ensures Floors(q, q, h, 0)
  {
  }

  /** Adds the carry to limb n and passes on what exceeds its range. */
  method ReduceLimb(t: array<i32>, n: nat, q: i32, r: i32, ghost c: int, ghost h: seq<int>) returns (q': i32)
    requires t.Length == |h| == 10 && n < 10 && r == Radix(n) && Tight(h)
    requires -19 <= q <= 19 && Reducing(t[..], q, c, h, n)
    modifies t
    ensures -19 <= q' <= 19 && Reducing(t[..], q', c, h, n + 1)
  {
    ghost var a := t[..];
    assert t[n] == h[n];
    t[n] := t[n] + q;
    q' := t[n] / r;
    t[n] := t[n] - q' * r;
    hide *;
    ReducingStep(a, q, c, h, n, t[..], q');
  }

  /** The second pass: every limb to its positive range. */
  method Reduce(t: array<i32>, q0: i32)
    requires t.Length == 10 && Tight(t[..]) && q0 == (if FeVal(t[..]) >= 0 then 0 else -1)
    modifies t
    ensures forall k :: 0 <= k < 10 ==> 0 <= t[k] < Radix(k)
    ensures Sum(t[..], 10) == FeVal(old(t[..])) % P()
  {
    ghost var h := t[..];
    var q: i32 := q0 * 19;
    ghost var c: int := q;
    assert Reducing(t[..], q, c, h, 0);
    for i := 0 to 5
      invariant -19 <= q <= 19 && Reducing(t[..], q, c, h, 2 * i)
    {
      q := ReduceLimb(t, 2 * i, q, 0x400_0000, c, h);
      q := ReduceLimb(t, 2 * i + 1, q, 0x200_0000, c, h);
    }
    FullyReduced(t[..], h, q0, q);
  }

  /** Dropping the bits that a left shift pushes out of the word. */
  lemma ShiftKeeps(y: nat, keep: nat)
    requires keep <= 32
    ensures Shl32(y, keep) == (y % Pow2(32 - keep)) * Pow2(keep)
  {
    hide *;
    Shl32Is(y, keep);
    Pow2Add(keep, 32 - keep);
    Truncated(0, Pow2(keep), y, Pow2(32 - keep));
    assert y * Pow2(keep) == 0 + Pow2(keep) * y;
  }

  lemma Shl32Is(y: nat, keep: nat)
    ensures Shl32(y, keep) == (y * Pow2(keep)) % Pow2(32)
  {
    Pow2Values();
    hide Pow2;
  }

  /** The upper part of one limb and the lower part of the next fill a word: `|` adds them. */
  lemma WordSum(x: nat, drop: nat, y: nat, keep: nat)
    requires Shr(x, drop) < Pow2(keep) && keep <= 32
    ensures Or(Shr(x, drop), Shl32(y, keep)) == Shr(x, drop) + (y % Pow2(32 - keep)) * Pow2(keep)
  {
    ShiftKeeps(y, keep);
    OrDisjoint(Shr(x, drop), y % Pow2(32 - keep), keep);
  }

  /** The eight words of the encoding, from limbs in their positive range. */
  function Packed(t: seq<int>): (w: seq<nat>)
    requires |t| == 10 && forall k :: 0 <= k < 10 ==> 0 <= t[k] < Radix(k)
    ensures |w| == 8
  {
    [Or(Shr(t[0], 0), Shl32(t[1], 26)), Or(Shr(t[1], 6), Shl32(t[2], 19)),
     Or(Shr(t[2], 13), Shl32(t[3], 13)), Or(Shr(t[3], 19), Shl32(t[4], 6)),
     Or(Shr(t[5], 0), Shl32(t[6], 25)), Or(Shr(t[6], 7), Shl32(t[7], 19)),
     Or(Shr(t[7], 13), Shl32(t[8], 12)), Or(Shr(t[8], 20), Shl32(t[9], 6))]
  }

  lemma ShrBound(x: nat, drop: nat, keep: nat)
    requires x < Pow2(drop + keep)
    ensures Shr(x, drop) == x / Pow2(drop) && Shr(x, drop) < Pow2(keep)
  {
    DivNat(x, Pow2(drop));
    Pow2Add(drop, keep);
    var q, d, k := Shr(x, drop), Pow2(drop), Pow2(keep);
    hide *;
    if q >= k {
      MulLe(d, k, q);
    }
  }

  lemma WordFits(q: nat, r: nat, keep: nat)
    requires keep <= 32 && q < Pow2(keep) && r < Pow2(32 - keep)
    ensures q + r * Pow2(keep) < Pow2(32)
  {
    Pow2Add(keep, 32 - keep);
    var k, m := Pow2(keep), Pow2(32 - keep);
    hide *;
    MulLt(k, r, m);
    Commute(r, k);
  }

  lemma Commute(x: int, y: int)
    ensures x * y == y * x
  {
  }

  /** Word k of the encoding, from limbs x and y. */
  lemma PackedWord(x: nat, drop: nat, y: nat, keep: nat)
    requires keep <= 26 && x < Pow2(drop + keep)
    ensures Or(Shr(x, drop), Shl32(y, keep)) == x / Pow2(drop) + (y % Pow2(32 - keep)) * Pow2(keep)
    ensures Or(Shr(x, drop), Shl32(y, keep)) < 0x1_0000_0000
  {
    hide *;
    Pow2Values();
    ShrBound(x, drop, keep);
    WordSum(x, drop, y, keep);
    WordFits(Shr(x, drop), y % Pow2(32 - keep), keep);
  }

  lemma PackedWords(t: seq<int>, w: seq<nat>)
    requires |t| == 10 && forall k :: 0 <= k < 10 ==> 0 <= t[k] < Radix(k)
    requires w == Packed(t)
    ensures forall k :: 0 <= k < 8 ==> w[k] < 0x1_0000_0000
    ensures w[0] == t[0] + (t[1] % 0x40) * 0x400_0000
    ensures w[1] == t[1] / 0x40 + (t[2] % 0x2000) * 0x8_0000
    ensures w[2] == t[2] / 0x2000 + (t[3] % 0x8_0000) * 0x2000
    ensures w[3] == t[3] / 0x8_0000 + t[4] * 0x40
    ensures w[4] == t[5] + (t[6] % 0x80) * 0x200_0000
    ensures w[5] == t[6] / 0x80 + (t[7] % 0x2000) * 0x8_0000
    ensures w[6] == t[7] / 0x2000 + (t[8] % 0x10_0000) * 0x1000
    ensures w[7] == t[8] / 0x10_0000 + t[9] * 0x40
  {
    hide Or, Shr, Shl32, Pow2;
    PackedLow(t[0], t[1], t[2], t[3], t[4]);
    PackedHigh(t[5], t[6], t[7], t[8], t[9]);
  }

  lemma PackedLow(t0: nat, t1: nat, t2: nat, t3: nat, t4: nat)
    requires t0 < 0x400_0000 && t1 < 0x200_0000 && t2 < 0x400_0000 && t3 < 0x200_0000 && t4 < 0x400_0000
    ensures Or(Shr(t0, 0), Shl32(t1, 26)) == t0 + (t1 % 0x40) * 0x400_0000 < 0x1_0000_0000
    ensures Or(Shr(t1, 6), Shl32(t2, 19)) == t1 / 0x40 + (t2 % 0x2000) * 0x8_0000 < 0x1_0000_0000
    ensures Or(Shr(t2, 13), Shl32(t3, 13)) == t2 / 0x2000 + (t3 % 0x8_0000) * 0x2000 < 0x1_0000_0000
    ensures Or(Shr(t3, 19), Shl32(t4, 6)) == t3 / 0x8_0000 + t4 * 0x40 < 0x1_0000_0000
  {
    hide *;
    Pow2Values();
    PackedWord(t0, 0, t1, 26);
    PackedWord(t1, 6, t2, 19);
    PackedWord(t2, 13, t3, 13);
    PackedWord(t3, 19, t4, 6);
  }

  lemma PackedHigh(t5: nat, t6: nat, t7: nat, t8: nat, t9: nat)
    requires t5 < 0x200_0000 && t6 < 0x400_0000 && t7 < 0x200_0000 && t8 < 0x400_0000 && t9 < 0x200_0000
    ensures Or(Shr(t5, 0), Shl32(t6, 25)) == t5 + (t6 % 0x80) * 0x200_0000 < 0x1_0000_0000
    ensures Or(Shr(t6, 7), Shl32(t7, 19)) == t6 / 0x80 + (t7 % 0x2000) * 0x8_0000 < 0x1_0000_0000
    ensures Or(Shr(t7, 13), Shl32(t8, 12)) == t7 / 0x2000 + (t8 % 0x10_0000) * 0x1000 < 0x1_0000_0000
    ensures Or(Shr(t8, 20), Shl32(t9, 6)) == t8 / 0x10_0000 + t9 * 0x40 < 0x1_0000_0000
  {
    hide *;
    Pow2Values();
    PackedWord(t5, 0, t6, 25);
    PackedWord(t6, 7, t7, 19);
    PackedWord(t7, 13, t8, 12);
    PackedWord(t8, 20, t9, 6);
  }

  /** The first four words hold limbs 0 to 4; both denote the same 128 bits. */
  lemma LowWordsVal(t: seq<int>, w: seq<u32>)
    requires |t| == 10 && |w| == 8
    requires w[0] == t[0] + (t[1] % 0x40) * 0x400_0000 && w[1] == t[1] / 0x40 + (t[2] % 0x2000) * 0x8_0000
    requires w[2] == t[2] / 0x2000 + (t[3] % 0x8_0000) * 0x2000 && w[3] == t[3] / 0x8_0000 + t[4] * 0x40
    ensures Val(w, 4) == Sum(t, 5)
  {
    SumFive(t, 0);
    LowWeights();
    assert Sum(t, 0) == 0 && W(0) == 1;
    assert Val(w, 1) == w[0];
    assert Val(w, 2) == Val(w, 1) + Pw(1) * w[1];
    assert Val(w, 3) == Val(w, 2) + Pw(2) * w[2];
    assert Val(w, 4) == Val(w, 3) + Pw(3) * w[3];
  }

  lemma LowWeights()
    ensures W(1) == 0x400_0000 && W(2) == 0x8_0000_0000_0000 && W(3) == 0x2000_0000_0000_0000_0000
    ensures W(4) == 0x40_0000_0000_0000_0000_0000_0000 && W(5) == 0x1_0000_0000_0000_0000_0000_0000_0000_0000
    ensures Pw(1) == 0x1_0000_0000 && Pw(2) == 0x1_0000_0000_0000_0000
    ensures Pw(3) == 0x1_0000_0000_0000_0000_0000_0000 && Pw(4) == 0x1_0000_0000_0000_0000_0000_0000_0000_0000
  {
  }

  lemma HighWordsVal(t: seq<int>, w: seq<u32>)
    requires |t| == 10 && |w| == 8
    requires w[4] == t[5] + (t[6] % 0x80) * 0x200_0000 && w[5] == t[6] / 0x80 + (t[7] % 0x2000) * 0x8_0000
    requires w[6] == t[7] / 0x2000 + (t[8] % 0x10_0000) * 0x1000 && w[7] == t[8] / 0x10_0000 + t[9] * 0x40
    ensures Val(w, 8) - Val(w, 4) == Sum(t, 10) - Sum(t, 5)
  {
    var h := w[4..];
    LowWeights();
    assert Val(h, 1) == h[0];
    assert Val(h, 2) == Val(h, 1) + Pw(1) * h[1];
    assert Val(h, 3) == Val(h, 2) + Pw(2) * h[2];
    assert Val(h, 4) == Val(h, 3) + Pw(3) * h[3];
    var x := t[5] + 0x200_0000 * t[6] + 0x8_0000_0000_0000 * t[7] + 0x1000_0000_0000_0000_0000 * t[8]
             + 0x40_0000_0000_0000_0000_0000_0000 * t[9];
    assert Val(h, 4) == x;
    HighSum(t, x);
    hide *;
    ValShift(w, 4, 4);
  }

  lemma HighSum(t: seq<int>, x: int)
    requires |t| == 10
    requires x == t[5] + 0x200_0000 * t[6] + 0x8_0000_0000_0000 * t[7] + 0x1000_0000_0000_0000_0000 * t[8]
                  + 0x40_0000_0000_0000_0000_0000_0000 * t[9]
    ensures Sum(t, 10) - Sum(t, 5) == W(5) * x
  {
    SumFive(t, 5);
    var w := W(5);
    assert W(6) == 0x200_0000 * w && W(7) == 0x8_0000_0000_0000 * w;
    assert W(8) == 0x1000_0000_0000_0000_0000 * w && W(9) == 0x40_0000_0000_0000_0000_0000_0000 * w;
    hide *;
    FiveProducts(w, t[5], t[6], t[7], t[8], t[9]);
  }

  lemma FiveProducts(w: int, a: int, b: int, c: int, d: int, e: int)
    ensures w * (a + 0x200_0000 * b + 0x8_0000_0000_0000 * c + 0x1000_0000_0000_0000_0000 * d
                 + 0x40_0000_0000_0000_0000_0000_0000 * e)
         == w * a + (0x200_0000 * w) * b + (0x8_0000_0000_0000 * w) * c
            + (0x1000_0000_0000_0000_0000 * w) * d + (0x40_0000_0000_0000_0000_0000_0000 * w) * e
  {
  }

  /** Writes the canonical encoding of h. */
  method FeToBytes(s: array<u8>, h: seq<i32>)
    requires s.Length == 32 && Tight(h)
    modifies s
    ensures Num(s[..], 32) == FeVal(h) % P()
  {
    var t := new i32[10](i requires 0 <= i < 10 => h[i]);
    assert t[..] == h;
    var q := Sign(t);
    Reduce(t, q);
    var l := t[..];
    var w := Packed(l);
    PackedWords(l, w);
    hide *;
    var words: seq<u32> := w;
    LowWordsVal(l, words);
    HighWordsVal(l, words);
    Store32Buf(s, words, 8);
  }

  /** Decoding the encoding of h gives an element equal to h. */
  lemma DecodeEncoded(h: seq<i32>, s: seq<u8>)
    requires Tight(h) && |s| == 32 && Num(s, 32) == FeVal(h) % P()
    ensures Cong(FeVal(Carried(Split(s, 1))), FeVal(h), P())
  {
    assert |h| == 10;
    hide *;
    DecodedVal(s);
    PrimeBits();
    var n := Num(s, 32);
    CongMod(FeVal(h), P());
    DivModUnique(n, 0, n, Pow2(255));
    CongTrans(FeVal(h), n, n, P());
    CongTrans(FeVal(Carried(Split(s, 1))), n, FeVal(h), P());
  }

  lemma DecodedVal(s: seq<u8>)
    requires |s| == 32
    ensures Cong(FeVal(Carried(Split(s, 1))), Num(s, 32) % Pow2(255), P())
  {
    hide *;
    SplitWithin(s, 1);
    StatedCarriable(Split(s, 1));
    SplitVal(s, 1);
    CarriedTight(Split(s, 1));
    CongTrans(FeVal(Carried(Split(s, 1))), FeVal(Split(s, 1)), Num(s, 32) % Pow2(255), P()) by { SameForm(s); }
  }

  lemma SameForm(s: seq<u8>)
    requires |s| == 32 && FeVal(Split(s, 1)) == Num(s, 32) % Pow2(256 - 1)
    ensures Cong(FeVal(Split(s, 1)), Num(s, 32) % Pow2(255), P())
  {
    hide FeVal, Split, Num, Pow2, P;
  }

  lemma PrimeBits()
    ensures P() + 19 == Pow2(255)
  {
    TopWeight();
    WPow2(10);
  }

  /** Encoding the decoding of s gives the canonical form of its low 255 bits. */
  lemma EncodeDecoded(s: seq<u8>, r: seq<u8>)
    requires |s| == |r| == 32 && Num(r, 32) == FeVal(Carried(Split(s, 1))) % P()
    ensures Num(r, 32) == (Num(s, 32) % Pow2(255)) % P()
  {
    DecodedVal(s);
  }
}
