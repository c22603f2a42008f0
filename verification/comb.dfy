/** Fixed-base multiplication with twin signed combs of four teeth, run on limbs. */
module SignedComb {
  import opened Arith
  import opened Bits
  import opened Limbs
  import opened Bytes
  import opened ScalarBits
  import opened Groups
  import opened Edwards
  import opened CurvePoints
  import opened ScalarModL
  import Montgomery

  // The recoding: a set bit counts for 1, a clear bit for -1.

  function Sign(s: seq<u8>, i: nat): int
    requires i < 8 * |s|
  {
    2 * ScalarBit(s, i) - 1
  }

  /** The bits i, i + 32, i + 64, ... of the recoded scalar, each at its own weight less i. */
  function Column(s: seq<u8>, i: nat, n: nat): int
    requires n > 0 ==> 32 * (n - 1) + i < 8 * |s|
  {
    if n == 0 then 0 else Column(s, i, n - 1) + Prod(Sign(s, 32 * (n - 1) + i), Pow2(32 * (n - 1)))
  }

  /** The bits i to 31 of one 32-bit tooth. */
  function Tooth(s: seq<u8>, k: nat, i: nat): int
    requires i <= 32 && 32 * (k + 1) <= 8 * |s|
    decreases 32 - i
  {
    if i == 32 then 0 else 2 * Tooth(s, k, i + 1) + Sign(s, 32 * k + i)
  }

  /** What n teeth amount to, above bit i of each. */
  function Teeth(s: seq<u8>, i: nat, n: nat): int
    requires i <= 32 && 32 * n <= 8 * |s|
  {
    if n == 0 then 0 else Teeth(s, i, n - 1) + Prod(Tooth(s, n - 1, i), Pow2(32 * (n - 1)))
  }

  /** One step of the ladder: double, and add the next column. */
  lemma {:induction false} NextColumn(s: seq<u8>, i: nat, n: nat)
    requires i < 32 && 32 * n <= 8 * |s|
    ensures Teeth(s, i, n) == 2 * Teeth(s, i + 1, n) + Column(s, i, n)
  {
    hide Prod, Sign, Pow2;
    if n == 0 {
    } else {
      NextColumn(s, i, n - 1);
      DoubleAndAdd(Tooth(s, n - 1, i + 1), Sign(s, 32 * (n - 1) + i), Pow2(32 * (n - 1)));
    }
  }

  lemma DoubleAndAdd(t: int, b: int, p: int)
    ensures Prod(2 * t + b, p) == 2 * Prod(t, p) + Prod(b, p)
  {
  }

  lemma {:induction false} NoTeeth(s: seq<u8>, n: nat)
    requires 32 * n <= 8 * |s|
    ensures Teeth(s, 32, n) == 0
  {
    if n == 0 {
    } else {
      NoTeeth(s, n - 1);
    }
  }

  /** The bits of a word inside a longer string. */
  lemma ToothBit(s: seq<u8>, k: nat, i: nat)
    requires i < 32 && 32 * (k + 1) <= 8 * |s|
    ensures ScalarBit(s, 32 * k + i) == Bit(Load32(s, 4 * k), i)
  {
    var t := s[4 * k..4 * k + 4];
    assert Load32(t, 0) == Load32(s, 4 * k);
    assert ScalarBit(t, i) == ScalarBit(s, 32 * k + i) by {
      assert (32 * k + i) / 8 == 4 * k + i / 8 && (32 * k + i) % 8 == i % 8;
      assert t[i / 8] == s[4 * k + i / 8];
    }
    hide ScalarBit, Load32;
    BitOfNum(t, i);
    NumFour(t, 0);
    assert Num(t, 4) == Load32(t, 0);
  }

  /** A tooth is a word recoded. */
  lemma {:induction false} ToothIs(s: seq<u8>, k: nat, i: nat)
    requires i <= 32 && 32 * (k + 1) <= 8 * |s|
    ensures Tooth(s, k, i) == 2 * Shr(Load32(s, 4 * k), i) - (Pow2(32 - i) - 1)
    decreases 32 - i
  {
    hide Load32, ScalarBit, Pow2;
    var w := Load32(s, 4 * k);
    if i == 32 {
      NoBits(w);
    } else {
      ToothIs(s, k, i + 1);
      NextBit(w, i);
      ToothBit(s, k, i);
      Pow2Next(31 - i);
      hide Bit;
    }
  }

  lemma NoBits(w: u32)
    ensures Shr(w, 32) == 0 && Pow2(0) == 1
  {
    Pow2Values();
    DivModUnique(w, 0, w, Pow2(32));
  }

  /** All the teeth together recode the whole scalar. */
  lemma {:induction false} TeethAre(s: seq<u8>, n: nat)
    requires 4 * n <= |s|
    ensures Teeth(s, 0, n) == 2 * Num(s, 4 * n) - (Pow2(32 * n) - 1)
  {
    hide *;
    if n == 0 {
      NothingAt(s);
    } else {
      TeethAre(s, n - 1);
      TeethNext(s, 0, n);
      ToothIs(s, n - 1, 0);
      NumFour(s, 4 * (n - 1));
      Pw8IsPow2(4 * (n - 1));
      assert 8 * (4 * (n - 1)) == 32 * (n - 1) && 32 + 32 * (n - 1) == 32 * n && 4 * (n - 1) + 4 == 4 * n;
      Pow2Add(32, 32 * (n - 1));
      ShrNone(Load32(s, 4 * (n - 1)));
      ToothAlgebra(Tooth(s, n - 1, 0), Load32(s, 4 * (n - 1)), Pow2(32), Pow2(32 * (n - 1)), Pw8(4 * (n - 1)),
                   Pow2(32 * n), Num(s, 4 * (n - 1)), Num(s, 4 * n));
    }
  }

  lemma NothingAt(s: seq<u8>)
    ensures Teeth(s, 0, 0) == 0 && Num(s, 0) == 0 && Pow2(0) == 1
  {
  }

  lemma TeethNext(s: seq<u8>, i: nat, n: nat)
    requires i <= 32 && 0 < n && 32 * n <= 8 * |s|
    ensures Teeth(s, i, n) == Teeth(s, i, n - 1) + Prod(Tooth(s, n - 1, i), Pow2(32 * (n - 1)))
  {
  }

  lemma ColumnNext(s: seq<u8>, i: nat, n: nat)
    requires 0 < n && 32 * (n - 1) + i < 8 * |s|
    ensures Column(s, i, n) == Column(s, i, n - 1) + Prod(Sign(s, 32 * (n - 1) + i), Pow2(32 * (n - 1)))
  {
  }

  lemma ToothAlgebra(tooth: int, w: int, t: int, p: int, q: int, tp: int, x: int, y: int)
    requires tooth == 2 * w - (t - 1) && p == q && tp == t * p && y == x + q * w
    ensures 2 * x - (p - 1) + Prod(tooth, p) == 2 * y - (tp - 1)
  {
  }

  // The tables and their look-up

  /** The coefficient of entry j: the top tooth is positive, and bit k of j gives the sign of tooth k. */
  function Entry(j: nat): int {
    Pow2(96) + Prod(ToothSign(j), Pow2(0)) + Prod(ToothSign(j / 2), Pow2(32)) + Prod(ToothSign(j / 4), Pow2(64))
  }

  function ToothSign(j: nat): int {
    2 * (j % 2) - 1
  }

  ghost predicate Comb<T>(g: Group<T>, rep: (Point, T) -> bool, table: seq<Niels>, scale: nat, b: T) {
    |table| == 8 && forall j :: 0 <= j < 8 ==> Precomputes(rep, table[j], Multiple(g, scale * Entry(j), b))
  }

  /** The table index and the sign that the four bits of a column give. */
  method Index(s: seq<u8>, i: nat) returns (index: nat, high: nat)
    requires |s| == 32 && i + 96 < 256
    ensures index < 8 && high <= 1
    ensures Column(s, i, 4) == if high == 1 then Entry(index) else -Entry(index)
  {
    hide Prod, Pow2, Column, Entry, ScalarBit;
    var t0, t1, t2, t3 := ScalarBit(s, i), ScalarBit(s, i + 32), ScalarBit(s, i + 64), ScalarBit(s, i + 96);
    var teeth := t0 + t1 * 2 + t2 * 4 + t3 * 8;
    high := teeth / 8;
    index := if high == 1 then teeth % 8 else 7 - teeth % 8;
    ColumnIs(s, i);
    EntryIs(t0, t1, t2, t3, index);
  }

  /** Adds one column of a comb, with the sign of its top tooth. The opposite of an entry is the one with its sum
      and difference exchanged and its product negated, as Msub forms it. */
  method LookupAdd<T(!new)>(p: Ge, comb: seq<Niels>, scalar: seq<u8>, i: nat,
                            ghost g: Group<T>, ghost rep: (Point, T) -> bool, ghost scale: nat, ghost b: T, ghost x: T)
    requires CurveGroup(g, rep) && |scalar| == 32 && i + 96 < 256 && Comb(g, rep, comb, scale, b) && Stands(rep, p, x)
    modifies p.X, p.Y, p.Z, p.T
    ensures Stands(rep, p, Plus(g, x, Multiple(g, scale * Column(scalar, i, 4), b)))
  {
    hide *;
    ZeroRep(g, rep);
    var index, high := Index(scalar, i);
    CombEntry(g, rep, comb, scale, b, index);
    var entry := comb[0];
    for j := 0 to 8
      invariant index < j ==> entry == comb[index]
    {
      if j == index {
        entry := comb[j];
      }
    }
    if high == 1 {
      Madd(p, entry, g, rep, x, Multiple(g, scale * Entry(index), b));
    } else {
      Msub(p, entry, g, rep, x, Multiple(g, scale * Entry(index), b));
      Negate(scale, Entry(index));
      SignedSteps(g, x, -(scale * Entry(index)), b);
    }
  }

  lemma CombEntry<T>(g: Group<T>, rep: (Point, T) -> bool, comb: seq<Niels>, scale: nat, b: T, j: nat)
    requires Comb(g, rep, comb, scale, b) && j < 8
    ensures |comb| == 8 && Precomputes(rep, comb[j], Multiple(g, scale * Entry(j), b))
  {
  }

  lemma Negate(x: int, y: int)
    ensures -(x * y) == x * (-y)
  {
  }

  lemma ColumnIs(s: seq<u8>, i: nat)
    requires i + 96 < 8 * |s|
    ensures Column(s, i, 4) == Prod(Sign(s, i), Pow2(0)) + Prod(Sign(s, i + 32), Pow2(32))
                             + Prod(Sign(s, i + 64), Pow2(64)) + Prod(Sign(s, i + 96), Pow2(96))
  {
    hide Prod, Sign, Pow2;
    assert Column(s, i, 1) == Prod(Sign(s, i), Pow2(0));
    assert Column(s, i, 2) == Column(s, i, 1) + Prod(Sign(s, i + 32), Pow2(32));
    assert Column(s, i, 3) == Column(s, i, 2) + Prod(Sign(s, i + 64), Pow2(64));
  }

  /** The table index, complemented when the top tooth is negative, selects the column up to its sign. */
  lemma EntryIs(t0: int, t1: int, t2: int, t3: int, index: int)
    requires 0 <= t0 <= 1 && 0 <= t1 <= 1 && 0 <= t2 <= 1 && 0 <= t3 <= 1
    requires index == if t3 == 1 then t0 + 2 * t1 + 4 * t2 else 7 - (t0 + 2 * t1 + 4 * t2)
    ensures 0 <= index < 8
    ensures Prod(2 * t0 - 1, Pow2(0)) + Prod(2 * t1 - 1, Pow2(32)) + Prod(2 * t2 - 1, Pow2(64)) + Prod(2 * t3 - 1, Pow2(96))
         == if t3 == 1 then Entry(index) else -Entry(index)
  {
    hide Pow2, Prod;
    IndexBits(t0, t1, t2, t3, index);
    Opposite(2 * t0 - 1, Pow2(0));
    Opposite(2 * t1 - 1, Pow2(32));
    Opposite(2 * t2 - 1, Pow2(64));
    Opposite(1, Pow2(96));
  }

  lemma IndexBits(t0: int, t1: int, t2: int, t3: int, index: int)
    requires 0 <= t0 <= 1 && 0 <= t1 <= 1 && 0 <= t2 <= 1 && 0 <= t3 <= 1
    requires index == if t3 == 1 then t0 + 2 * t1 + 4 * t2 else 7 - (t0 + 2 * t1 + 4 * t2)
    ensures 0 <= index < 8
    ensures ToothSign(index) == (if t3 == 1 then 2 * t0 - 1 else -(2 * t0 - 1))
    ensures ToothSign(index / 2) == (if t3 == 1 then 2 * t1 - 1 else -(2 * t1 - 1))
    ensures ToothSign(index / 4) == (if t3 == 1 then 2 * t2 - 1 else -(2 * t2 - 1))
  {
  }

  lemma Opposite(t: int, p: int)
    ensures Prod(-t, p) == -Prod(t, p) && Prod(1, p) == p
  {
  }

  /** A column of eight teeth is a low column and a high one. */
  lemma TwinColumns(s: seq<u8>, i: nat)
    requires |s| == 32 && i < 32
    ensures Column(s, i, 8) == Column(s, i, 4) + Pow2(128) * Column(s, i + 128, 4)
  {
    Twin(s, i, 4);
  }

  lemma {:induction false} Twin(s: seq<u8>, i: nat, n: nat)
    requires |s| == 32 && i < 32 && n <= 4
    ensures Column(s, i, 4 + n) == Column(s, i, 4) + Pow2(128) * Column(s, i + 128, n)
  {
    hide *;
    if n == 0 {
      EmptyColumn(s, i + 128);
    } else {
      Twin(s, i, n - 1);
      ColumnNext(s, i, 4 + n);
      ColumnNext(s, i + 128, n);
      var m := 32 * (n - 1);
      assert 32 * (4 + n - 1) == 128 + m && 128 + m + i == m + (i + 128);
      Pow2Add(128, m);
      TwinAlgebra(Pow2(128), Column(s, i + 128, n - 1), Column(s, i + 128, n), Sign(s, m + (i + 128)), Pow2(m), Pow2(128 + m));
    }
  }

  lemma EmptyColumn(s: seq<u8>, i: nat)
    ensures Column(s, i, 0) == 0
  {
  }

  lemma TwinAlgebra(t: int, c: int, c': int, x: int, p: int, tp: int)
    requires tp == t * p && c' == c + Prod(x, p)
    ensures t * c' == t * c + Prod(x, tp)
  {
  }

  // The recoding of the scalar

  /** 1/2 modulo the group order. */
  function HalfModL(): (h: seq<u8>)
    ensures |h| == 32
  {
    [247,233,122,46,141,49,9,44,107,206,123,81,239,124,111,10, 0,0,0,0,0,0,0,0,0,0,0,0,0,0,0,8]
  }

  /** (2^256 - 1)/2 modulo the group order. */
  function HalfOnes(): (h: seq<u8>)
    ensures |h| == 32
  {
    [142,74,204,70,186,24,118,107,184,231,190,57,250,173,119,99, 255,255,255,255,255,255,255,255,255,255,255,255,255,255,255,7]
  }

  lemma HalfModLWords()
    ensures Words(HalfModL(), 8) == [0x2e7ae9f7, 0x2c09318d, 0x517bce6b, 0x0a6f7cef, 0, 0, 0, 0x08000000]
  {
  }

  lemma HalfOnesWords()
    ensures Words(HalfOnes(), 8) == [0x46cc4a8e, 0x6b7618ba, 0x39bee7b8, 0x6377adfa, 0xffffffff, 0xffffffff, 0xffffffff, 0x07ffffff]
  {
  }

  lemma HalfModLValue()
    ensures 2 * Num(HalfModL(), 32) == Ell() + 1
  {
    HalfModLWords();
    hide Num, Val, Words, HalfModL, HalfOnes;
    Weights();
    var w := Words(HalfModL(), 8);
    NumIsVal(HalfModL(), w, 8);
    Val8(w);
    hide Pw;
  }

  lemma HalfOnesValue()
    ensures 2 * Num(HalfOnes(), 32) + 15 * Ell() == Pw(8) - 1
  {
    HalfOnesWords();
    hide Num, Val, Words, HalfModL, HalfOnes;
    Weights();
    var w := Words(HalfOnes(), 8);
    NumIsVal(HalfOnes(), w, 8);
    Val8(w);
    hide Pw;
  }

  /** The recoded scalar stands for the original one, modulo the group order. */
  lemma Recoded(scalar: nat, half: nat, ones: nat, s: nat, ell: nat, w: nat) returns (k: int)
    requires ell > 0 && 2 * half == ell + 1 && 2 * ones + 15 * ell == w - 1
    requires s == (scalar * half + ones) % ell
    ensures 2 * s - (w - 1) == scalar + k * ell
  {
    var x := scalar * half + ones;
    var q := x / ell;
    assert x == ell * q + s;
    assert 2 * (scalar * half) == scalar * (ell + 1) by { MulAssoc(scalar, half, 2); MulAssoc(2, scalar, half); }
    MulDistr(scalar, ell, 1);
    k := scalar - 15 - 2 * q;
    assert k * ell == scalar * ell - 15 * ell - 2 * (ell * q);
  }

  /** Multiples of the group order vanish. */
  lemma {:induction false} OrderVanishes<T(!new)>(g: Group<T>, k: int, ell: nat, b: T)
    requires Abelian(g) && Multiple(g, ell, b) == g.zero
    ensures Multiple(g, k * ell, b) == g.zero
    decreases if k >= 0 then k else 1 - k
  {
    hide *;
    if k == 0 {
      MultipleZero(g, b);
    } else if k > 0 {
      OrderVanishes(g, k - 1, ell, b);
      assert (k - 1) * ell + ell == k * ell;
      MultipleAdd(g, (k - 1) * ell, ell, b);
      Units(g, g.zero);
    } else {
      OrderVanishes(g, -k, ell, b);
      assert (-k) * ell == -(k * ell);
      MultipleNeg(g, (-k) * ell, b);
      Units(g, g.zero);
      Units(g, g.neg(g.zero));
    }
  }

  /** [scalar]b for any 256-bit scalar, when the order of b divides the group order L. */
  method ScalarMultBase<T(!new)>(p: Ge, low: seq<Niels>, high: seq<Niels>, scalar: seq<u8>,
                                 ghost g: Group<T>, ghost rep: (Point, T) -> bool, ghost b: T)
    requires CurveGroup(g, rep) && |scalar| == 32 && Multiple(g, Ell(), b) == g.zero && p.Shape()
    requires Comb(g, rep, low, 1, b) && Comb(g, rep, high, Pow2(128), b)
    modifies p.X, p.Y, p.Z, p.T
    ensures Stands(rep, p, Multiple(g, Num(scalar, 32), b))
  {
    hide *;
    ZeroRep(g, rep);
    var s := Recode(scalar);
    Zero(p, g, rep);
    FirstColumn(g, s, b);
    AddColumn(p, low, high, s, 31, g, rep, b, 0);
    var i := 30;
    while i >= 0
      invariant -1 <= i <= 30
      invariant Stands(rep, p, Multiple(g, Teeth(s, i + 1, 8), b))
    {
      ghost var t := Teeth(s, i + 1, 8);
      Double(p, g, rep, Multiple(g, t, b));
      DoubleMultiple(g, t, b);
      AddColumn(p, low, high, s, i, g, rep, b, t);
      i := i - 1;
    }
    Whole(g, scalar, s, b);
  }

  /** The all-bits-set form of the scalar. */
  method Recode(scalar: seq<u8>) returns (s: seq<u8>)
    requires |scalar| == 32
    ensures |s| == 32
    ensures Num(s, 32) == (Num(scalar, 32) * Num(HalfModL(), 32) + Num(HalfOnes(), 32)) % Ell()
  {
    hide *;
    var out := new u8[32];
    EddsaMulAdd(out, scalar, HalfModL(), HalfOnes());
    s := out[..];
  }

  /** Adds the low and the high half of a column. */
  method AddColumn<T(!new)>(p: Ge, low: seq<Niels>, high: seq<Niels>, s: seq<u8>, i: nat,
                            ghost g: Group<T>, ghost rep: (Point, T) -> bool, ghost b: T, ghost t: int)
    requires CurveGroup(g, rep) && |s| == 32 && i < 32 && t == Teeth(s, i + 1, 8)
    requires Comb(g, rep, low, 1, b) && Comb(g, rep, high, Pow2(128), b)
    requires Stands(rep, p, Multiple(g, 2 * t, b))
    modifies p.X, p.Y, p.Z, p.T
    ensures Stands(rep, p, Multiple(g, Teeth(s, i, 8), b))
  {
    hide *;
    ZeroRep(g, rep);
    LookupAdd(p, low, s, i, g, rep, 1, b, Multiple(g, 2 * t, b));
    LookupAdd(p, high, s, i + 128, g, rep, Pow2(128), b, Plus(g, Multiple(g, 2 * t, b), Multiple(g, 1 * Column(s, i, 4), b)));
    OneColumn(g, t, s, i, b);
  }

  lemma DoubleMultiple<T(!new)>(g: Group<T>, t: int, b: T)
    requires Abelian(g)
    ensures Plus(g, Multiple(g, t, b), Multiple(g, t, b)) == Multiple(g, 2 * t, b)
  {
    hide Abelian, Multiple;
    MultipleAdd(g, t, t, b);
  }

  lemma OneColumn<T(!new)>(g: Group<T>, t: int, s: seq<u8>, i: nat, b: T)
    requires Abelian(g) && |s| == 32 && i < 32 && t == Teeth(s, i + 1, 8)
    ensures Plus(g, Plus(g, Multiple(g, 2 * t, b), Multiple(g, 1 * Column(s, i, 4), b)), Multiple(g, Pow2(128) * Column(s, i + 128, 4), b))
         == Multiple(g, Teeth(s, i, 8), b)
  {
    hide Abelian, Multiple, Teeth, Column, Pow2;
    NextColumn(s, i, 8);
    TwinColumns(s, i);
    var x, y := Column(s, i, 4), Pow2(128) * Column(s, i + 128, 4);
    MultipleAdd(g, 2 * t, 1 * x, b);
    MultipleAdd(g, 2 * t + 1 * x, y, b);
  }

  lemma FirstColumn<T(!new)>(g: Group<T>, s: seq<u8>, b: T)
    requires Abelian(g) && |s| == 32
    ensures Teeth(s, 32, 8) == 0 && g.zero == Multiple(g, 2 * 0, b)
  {
    hide *;
    NoTeeth(s, 8);
    MultipleZero(g, b);
  }

  /** The multiple that the comb reaches is the one asked for. */
  lemma Whole<T(!new)>(g: Group<T>, scalar: seq<u8>, s: seq<u8>, b: T)
    requires Abelian(g) && |scalar| == |s| == 32 && Multiple(g, Ell(), b) == g.zero
    requires Num(s, 32) == (Num(scalar, 32) * Num(HalfModL(), 32) + Num(HalfOnes(), 32)) % Ell()
    ensures Multiple(g, Teeth(s, 0, 8), b) == Multiple(g, Num(scalar, 32), b)
  {
    hide *;
    TeethAre(s, 8);
    HalfModLValue();
    HalfOnesValue();
    Montgomery.EllBits();
    var k := Recoded(Num(scalar, 32), Num(HalfModL(), 32), Num(HalfOnes(), 32), Num(s, 32), Ell(), Pw(8));
    OrderVanishes(g, k, Ell(), b);
    MultipleAdd(g, Num(scalar, 32), k * Ell(), b);
    Units(g, Multiple(g, Num(scalar, 32), b));
  }

  // Without any hypothesis on the curve

  lemma AnyComb(table: seq<Niels>, scale: nat)
    requires TightTable(table)
    ensures Comb(One(), Any(), table, scale, ())
  {
    hide TightEntry, Precomputes, Entry;
    forall j | 0 <= j < 8 ensures Precomputes(Any(), table[j], Multiple(One(), scale * Entry(j), ())) {
      AnyEntry(table[j]);
      OneElement(Multiple(One(), scale * Entry(j), ()));
    }
  }

  /** One look-up and addition, for any point and any table of tight limbs. */
  method LookupAddBounds(p: Ge, comb: seq<Niels>, scalar: seq<u8>, i: nat)
    requires |scalar| == 32 && i + 96 < 256 && TightTable(comb) && Bounded(p)
    modifies p.X, p.Y, p.Z, p.T
    ensures Bounded(p)
  {
    hide *;
    AnyPoint();
    AnyComb(comb, 1);
    AnyStands(p);
    LookupAdd(p, comb, scalar, i, One(), Any(), 1, (), ());
    OneElement(Plus(One(), (), Multiple(One(), 1 * Column(scalar, i, 4), ())));
    AnyStands(p);
  }

  /** For all scalars and all tables of tight limbs, the comb meets the bound of every product, square and copy, and ends
      with a tight point on which T * Z = X * Y. */
  method ScalarMultBaseBounds(p: Ge, low: seq<Niels>, high: seq<Niels>, scalar: seq<u8>)
    requires |scalar| == 32 && p.Shape() && TightTable(low) && TightTable(high)
    modifies p.X, p.Y, p.Z, p.T
    ensures Bounded(p)
  {
    hide *;
    AnyPoint();
    AnyComb(low, 1);
    AnyComb(high, Pow2(128));
    OneElement(Multiple(One(), Ell(), ()));
    OneElement(One().zero);
    ScalarMultBase(p, low, high, scalar, One(), Any(), ());
    OneElement(Multiple(One(), Num(scalar, 32), ()));
    AnyStands(p);
  }
}
