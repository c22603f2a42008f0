/** Signed sliding windows over the bits of a scalar, and the double-and-add ladder they drive. */
module SlidingWindow {
  import opened Arith
  import opened Bits
  import opened Limbs
  import opened Bytes
  import opened ScalarBits

  /** The scalar without its bits below c. */
  function High(s: seq<u8>, c: int): nat
    requires c >= 0
  {
    Shr(Num(s, |s|), c)
  }

  /** What digits at positions above c must add up to: the bits above c, with bit c rounded up. */
  function Rounded(s: seq<u8>, c: int): int
    requires -1 <= c < 8 * |s|
  {
    Pow2(c + 1) * (High(s, c + 1) + ScalarBit(s, c))
  }

  lemma HighNext(s: seq<u8>, c: nat)
    requires c < 8 * |s|
    ensures High(s, c) == 2 * High(s, c + 1) + ScalarBit(s, c)
  {
    NextBit(Num(s, |s|), c);
    BitOfNum(s, c);
  }

  /** Equal neighbouring bits need no digit. */
  lemma SkipBit(s: seq<u8>, c: nat)
    requires c < 8 * |s| && ScalarBit(s, c) == ScalarBit(s, c - 1)
    ensures Rounded(s, c - 1) == Rounded(s, c)
  {
    HighNext(s, c);
    var p, h, b, x := Pow2(c), High(s, c + 1), ScalarBit(s, c), High(s, c);
    assert Rounded(s, c - 1) == p * (x + b) && Rounded(s, c) == Pow2(c + 1) * (h + b) && Pow2(c + 1) == 2 * p;
    hide *;
    Halves(p, h, b);
  }

  lemma Halves(p: int, h: int, b: int)
    ensures p * (2 * h + b + b) == (2 * p) * (h + b)
  {
  }

  /** The w - 1 bits below position c, as the source gathers them. */
  function Middle(s: seq<u8>, lo: nat, n: nat): int
    requires lo + n <= 8 * |s|
  {
    if n == 0 then 0 else Middle(s, lo, n - 1) + ScalarBit(s, lo + n - 1) * Pow2(n - 1)
  }

  lemma {:induction false} MiddleVal(s: seq<u8>, lo: nat, n: nat)
    requires lo + n <= 8 * |s|
    ensures High(s, lo) == Pow2(n) * High(s, lo + n) + Middle(s, lo, n)
    ensures 0 <= Middle(s, lo, n) < Pow2(n)
  {
    hide *;
    MiddleIs(s, lo, n);
    if n > 0 {
      MiddleVal(s, lo, n - 1);
      HighNext(s, lo + n - 1);
      Pow2Next(n - 1);
      BitRange(s, lo + n - 1);
      MiddleAlgebra(Pow2(n - 1), High(s, lo + n), ScalarBit(s, lo + n - 1), Middle(s, lo, n - 1));
    }
  }

  lemma MiddleIs(s: seq<u8>, lo: nat, n: nat)
    requires lo + n <= 8 * |s|
    ensures n == 0 ==> Middle(s, lo, n) == 0 && Pow2(n) == 1
    ensures n > 0 ==> Middle(s, lo, n) == Middle(s, lo, n - 1) + ScalarBit(s, lo + n - 1) * Pow2(n - 1)
  {
  }

  lemma BitRange(s: seq<u8>, i: int)
    requires i < 8 * |s|
    ensures 0 <= ScalarBit(s, i) <= 1
  {
  }

  lemma MiddleBound(s: seq<u8>, lo: nat, n: nat)
    requires lo + n <= 8 * |s|
    ensures 0 <= Middle(s, lo, n) < Pow2(n)
  {
    hide *;
    MiddleVal(s, lo, n);
  }

  lemma MiddleAlgebra(p: int, h: int, b: int, m: int)
    requires 0 <= m < p && 0 <= b <= 1
    ensures p * (2 * h + b) + m == (2 * p) * h + (m + b * p) && 0 <= m + b * p < 2 * p
  {
  }

  /** The signed value of the window whose sign bit is i: bits i - w + 1 to i, rounded by bit i - w. */
  function WindowValue(s: seq<u8>, i: nat, w: nat): int
    requires 1 <= w <= i + 1 && i < 8 * |s|
  {
    -(ScalarBit(s, i) * Pow2(w - 1)) + Middle(s, i - (w - 1), w - 1) + ScalarBit(s, i - w)
  }

  /** A window accounts for exactly the bits it covers. */
  lemma WindowStep(s: seq<u8>, i: nat, w: nat)
    requires 1 <= w <= i + 1 && i < 8 * |s|
    ensures Rounded(s, i - w) == Rounded(s, i) + Pow2(i - (w - 1)) * WindowValue(s, i, w)
  {
    hide *;
    var lo := i - (w - 1);
    MiddleVal(s, lo, w - 1);
    HighNext(s, i);
    Pow2Add(lo, w);
    Pow2Next(w - 1);
    RoundedIs(s, i);
    RoundedIs(s, i - w);
    WindowIs(s, i, w);
    WindowAlgebra(Pow2(lo), Pow2(w - 1), High(s, i + 1), ScalarBit(s, i), Middle(s, lo, w - 1), ScalarBit(s, i - w),
                  Pow2(i + 1), High(s, lo));
  }

  lemma RoundedIs(s: seq<u8>, c: int)
    requires -1 <= c < 8 * |s|
    ensures Rounded(s, c) == Pow2(c + 1) * (High(s, c + 1) + ScalarBit(s, c))
  {
  }

  lemma WindowIs(s: seq<u8>, i: nat, w: nat)
    requires 1 <= w <= i + 1 && i < 8 * |s|
    ensures WindowValue(s, i, w) == -(ScalarBit(s, i) * Pow2(w - 1)) + Middle(s, i - (w - 1), w - 1) + ScalarBit(s, i - w)
  {
  }

  lemma WindowAlgebra(p: int, q: int, h: int, b: int, m: int, r: int, t: int, x: int)
    requires t == p * (2 * q) && x == q * (2 * h + b) + m
    ensures p * (x + r) == t * (h + b) + p * (-(b * q) + m + r)
  {
  }

  /** Bitwise and of two bytes. */
  function And8(a: nat, b: nat): nat {
    And2(a, b, 0x01) + And2(a, b, 0x02) + And2(a, b, 0x04) + And2(a, b, 0x08)
    + And2(a, b, 0x10) + And2(a, b, 0x20) + And2(a, b, 0x40) + And2(a, b, 0x80)
  }

  function And2(a: nat, b: nat, bit: nat): nat
    requires bit > 0
  {
    if (a / bit) % 2 == 1 && (b / bit) % 2 == 1 then bit else 0
  }

  /** v & (~v + 1), on the low byte of the two's complement form: the lowest bit set in v. */
  function LowestBit(v: int): nat {
    And8(v % 0x100, (-v) % 0x100)
  }

  /** The binary logarithm of a power of two below 2^8, by three masks. */
  function Log2(lsb: nat): nat {
    (if And8(lsb, 0xAA) != 0 then 1 else 0) + (if And8(lsb, 0xCC) != 0 then 2 else 0)
    + (if And8(lsb, 0xF0) != 0 then 4 else 0)
  }

  /** The lowest set bit of 1 to 16. */
  function Lowest(v: nat): nat {
    if v % 2 == 1 then 1 else if v % 4 == 2 then 2 else if v % 8 == 4 then 4 else if v % 16 == 8 then 8 else 16
  }

  lemma LowBitIs(v: nat)
    requires 1 <= v <= 16
    ensures And8(v, 0x100 - v) == Lowest(v) && And8(0x100 - v, v) == Lowest(v)
  {
    if v <= 8 {
      LowBitSmall(v);
    } else {
      LowBitLarge(v);
    }
  }

  lemma LowBitSmall(v: nat)
    requires 1 <= v <= 8
    ensures And8(v, 0x100 - v) == Lowest(v) && And8(0x100 - v, v) == Lowest(v)
  {
    if v == 1 {} else if v == 2 {} else if v == 3 {} else if v == 4 {}
    else if v == 5 {} else if v == 6 {} else if v == 7 {} else {}
  }

  lemma LowBitLarge(v: nat)
    requires 9 <= v <= 16
    ensures And8(v, 0x100 - v) == Lowest(v) && And8(0x100 - v, v) == Lowest(v)
  {
    if v == 9 {} else if v == 10 {} else if v == 11 {} else if v == 12 {}
    else if v == 13 {} else if v == 14 {} else if v == 15 {} else {}
  }

  /** What the three masks leave of a single bit. */
  lemma OneBit(b: nat)
    requires b == 1 || b == 2 || b == 4 || b == 8 || b == 16
    ensures And8(b, 0xAA) == And2(b, 0xAA, b) && And8(b, 0xCC) == And2(b, 0xCC, b) && And8(b, 0xF0) == And2(b, 0xF0, b)
  {
    SingleBit(b, 0xAA);
    SingleBit(b, 0xCC);
    SingleBit(b, 0xF0);
  }

  lemma SingleBit(b: nat, mask: nat)
    requires b == 1 || b == 2 || b == 4 || b == 8 || b == 16
    ensures And8(b, mask) == And2(b, mask, b)
  {
    assert forall bit :: bit in {0x01, 0x02, 0x04, 0x08, 0x10, 0x20, 0x40, 0x80} && bit != b ==> b / bit % 2 == 0;
  }

  lemma LogOfBit(b: nat)
    requires b == 1 || b == 2 || b == 4 || b == 8 || b == 16
    ensures Log2(b) <= 4 && b == SmallPower(Log2(b))
  {
    hide *;
    OneBit(b);
    MaskBits(b);
    LogIs(b);
    Powers();
  }

  lemma MaskBits(b: nat)
    requires b == 1 || b == 2 || b == 4 || b == 8 || b == 16
    ensures And2(b, 0xAA, b) == (if b == 2 || b == 8 then b else 0) && And2(b, 0xCC, b) == (if b == 4 || b == 8 then b else 0)
    ensures And2(b, 0xF0, b) == if b == 16 then b else 0
  {
    if b == 1 {} else if b == 2 {} else if b == 4 {} else if b == 8 {} else {}
  }

  lemma LogIs(b: nat)
    ensures Log2(b) == (if And8(b, 0xAA) != 0 then 1 else 0) + (if And8(b, 0xCC) != 0 then 2 else 0) + if And8(b, 0xF0) != 0 then 4 else 0
  {
    hide And8;
  }

  lemma Powers()
    ensures SmallPower(0) == 1 && SmallPower(1) == 2 && SmallPower(2) == 4 && SmallPower(3) == 8 && SmallPower(4) == 16
  {
  }

  /** How often 2 divides v. */
  function Twos(v: int): nat {
    if v % 2 == 1 then 0 else if v % 4 == 2 then 1 else if v % 8 == 4 then 2 else if v % 16 == 8 then 3 else 4
  }

  lemma ShiftIs(v: int)
    requires -16 <= v <= 16 && v != 0
    ensures Log2(LowestBit(v)) == Twos(v)
  {
    hide And8, Log2;
    var a := if v > 0 then v else -v;
    LowBitIs(a);
    LowestOf(v, a);
    LogOfBit(Lowest(a));
    assert LowestBit(v) == Lowest(a);
    hide LowestBit, Lowest, Twos;
  }

  function SmallPower(k: nat): nat {
    if k == 0 then 1 else if k == 1 then 2 else if k == 2 then 4 else if k == 3 then 8 else 16
  }

  /** A number and its negation have the same lowest bit. */
  lemma LowestOf(v: int, a: int)
    requires 1 <= a <= 16 && (v == a || v == -a)
    ensures Twos(v) <= 4 && Lowest(a) == SmallPower(Twos(v))
  {
    if a % 2 == 1 {
      assert v % 2 == 1;
    } else if a % 4 == 2 {
      assert v % 4 == 2;
    } else if a % 8 == 4 {
      assert v % 8 == 4;
    } else if a == 8 {
    } else {
      assert a == 16;
    }
  }

  /** The arithmetic shift to the right of a signed word. */
  function Sar(v: int, n: nat): int {
    v / Pow2(n)
  }

  /** The shift finds the odd part of a window. */
  lemma OddPart(v: int)
    requires -16 <= v <= 16 && v != 0
    ensures var s := Log2(LowestBit(v));
            s <= 4 && v == (Sar(v, s)) * Pow2(s) && (Sar(v, s)) % 2 == 1
  {
    ShiftIs(v);
    Pow2Values();
    assert Pow2(1) == 2;
    assert Pow2(Twos(v)) == SmallPower(Twos(v));
    hide *;
    OddQuotient(v, Log2(LowestBit(v)), Pow2(Log2(LowestBit(v))));
  }

  lemma OddQuotient(v: int, s: nat, p: nat)
    requires -16 <= v <= 16 && v != 0 && s == Twos(v)
    requires p == SmallPower(s)
    ensures s <= 4 && v == (v / p) * p && (v / p) % 2 == 1
  {
    hide *;
    Halfway(v, s);
    assert v == (2 * p) * (v / (2 * p)) + v % (2 * p);
    OddMultiple(v, p, 2 * p, v / (2 * p));
  }

  lemma Halfway(v: int, s: nat)
    requires -16 <= v <= 16 && v != 0 && s == Twos(v)
    ensures s <= 4 && SmallPower(s) > 0 && v % (2 * SmallPower(s)) == SmallPower(s)
  {
    if s == 0 {} else if s == 1 {} else if s == 2 {} else if s == 3 {} else {}
  }

  lemma OddMultiple(v: int, p: nat, d: nat, q: int)
    requires p > 0 && d == 2 * p && v == d * q + p
    ensures v == (v / p) * p && (v / p) % 2 == 1
  {
    assert d * q + p == (2 * q + 1) * p;
    DivModUnique(v, 2 * q + 1, 0, p);
  }

  function Abs(x: int): nat {
    if x >= 0 then x else -x
  }

  /** The sign bit of a window differs from the bit below it, which keeps the window's value away from zero. */
  lemma WindowRange(s: seq<u8>, i: nat, w: nat)
    requires 1 <= w <= i + 1 && i < 8 * |s| && ScalarBit(s, i) != ScalarBit(s, i - 1)
    requires 2 <= w || i == 0
    ensures WindowValue(s, i, w) != 0 && Abs(WindowValue(s, i, w)) <= Pow2(w - 1)
  {
    hide *;
    WindowIs(s, i, w);
    if w >= 2 {
      MiddleBound(s, i - (w - 1), w - 2);
      MiddleTop(s, i - (w - 1), w - 2);
      Pow2Next(w - 2);
      WindowBounds(ScalarBit(s, i), ScalarBit(s, i - 1), Middle(s, i - (w - 1), w - 1), Middle(s, i - (w - 1), w - 2),
                   ScalarBit(s, i - w), Pow2(w - 1), Pow2(w - 2));
    } else {
      FirstWindow(s);
      assert i - (w - 1) == 0 && i - w == -1;
    }
  }

  lemma MiddleTop(s: seq<u8>, lo: nat, n: nat)
    requires lo + n < 8 * |s|
    ensures Middle(s, lo, n + 1) == Middle(s, lo, n) + ScalarBit(s, lo + n) * Pow2(n)
  {
    hide ScalarBit, Pow2;
  }

  lemma FirstWindow(s: seq<u8>)
    requires s != []
    ensures Middle(s, 0, 0) == 0 && ScalarBit(s, -1) == 0 && Pow2(0) == 1 && Abs(-1) == 1
  {
  }

  lemma WindowBounds(b: int, b': int, m: int, m': int, r: int, p: int, p': int)
    requires 0 <= b <= 1 && b' == 1 - b && 0 <= r <= 1 && 0 <= m' < p' && p == 2 * p'
    requires m == m' + b' * p'
    ensures -(b * p) + m + r != 0 && Abs(-(b * p) + m + r) <= p
  {
  }

  type i8 = x: int | -0x80 <= x < 0x80
  type i16 = x: int | -0x8000 <= x < 0x8000

  /** A digit of the recoding: odd, and small enough for a table of 2^(width - 2) odd multiples. */
  predicate Digit(d: int, width: nat)
  {
    width >= 2 && d % 2 == 1 && Abs(d) < Pow2(width - 1)
  }

  /** A recoder that checks position c next, and holds a digit for position index, is ready to deliver position i. */
  predicate ReadyAt(c: int, index: int, digit: int, width: nat, i: int)
  {
    && -1 <= c <= i < 254
    && (index == -1 || c < index)
    && (c < index <= i ==> Digit(digit, width))
  }

  /** What the digits of positions i down to 0 will add up to. */
  function RemainingAt(s: seq<u8>, c: int, index: int, digit: int, i: int): int
    requires |s| == 32 && -1 <= c < 256 && (index == -1 || c < index)
  {
    Num(s, |s|) - Rounded(s, c) + if c < index <= i then digit * Pow2(index) else 0
  }

  lemma Skip(s: seq<u8>, c: nat, index: int, digit: int, width: nat)
    requires |s| == 32 && ReadyAt(c, index, digit, width, c) && ScalarBit(s, c) == ScalarBit(s, c - 1)
    ensures ReadyAt(c - 1, index, digit, width, c)
    ensures RemainingAt(s, c - 1, index, digit, c) == RemainingAt(s, c, index, digit, c)
  {
    SkipBit(s, c);
    hide Rounded;
  }

  /** A window replaces what it covers by one digit, at the position of its lowest bit. */
  lemma Window(s: seq<u8>, c: nat, index: int, digit: int, width: nat, w: nat, v: int, shift: nat)
    requires |s| == 32 && 2 <= width <= 5 && ReadyAt(c, index, digit, width, c)
    requires ScalarBit(s, c) != ScalarBit(s, c - 1)
    requires w == if width < c + 1 then width else c + 1
    requires v == WindowValue(s, c, w) && shift == Log2(LowestBit(v))
    ensures c - (w - 1) <= c - (w - 1) + shift <= c && Abs(Sar(v, shift)) < 0x80
    ensures ReadyAt(c - w, c - (w - 1) + shift, Sar(v, shift), width, c)
    ensures RemainingAt(s, c - w, c - (w - 1) + shift, Sar(v, shift), c) == RemainingAt(s, c, index, digit, c)
  {
    assert c < 254;
    hide *;
    WindowDigit(s, c, width, w, v, shift);
    Replace(s, c, index, digit, width, w, c - (w - 1) + shift, Sar(v, shift));
  }

  lemma WindowDigit(s: seq<u8>, c: nat, width: nat, w: nat, v: int, shift: nat)
    requires |s| == 32 && c < 254 && 2 <= width <= 5 && 1 <= w <= width && w <= c + 1 && (2 <= w || c == 0)
    requires ScalarBit(s, c) != ScalarBit(s, c - 1) && v == WindowValue(s, c, w) && shift == Log2(LowestBit(v))
    ensures shift <= w - 1 && Digit(Sar(v, shift), width) && Abs(Sar(v, shift)) < 0x80
    ensures Rounded(s, c - w) == Rounded(s, c) + Sar(v, shift) * Pow2(c - (w - 1) + shift)
  {
    hide *;
    WindowRange(s, c, w);
    DigitOf(v, w, width, shift);
    WindowStep(s, c, w);
    Placed(v, Sar(v, shift), shift, c - (w - 1));
  }

  lemma Replace(s: seq<u8>, c: nat, index: int, digit: int, width: nat, w: nat, index': nat, digit': int)
    requires |s| == 32 && 2 <= width && ReadyAt(c, index, digit, width, c) && 1 <= w <= c + 1
    requires c - w < index' <= c && Digit(digit', width)
    requires Rounded(s, c - w) == Rounded(s, c) + digit' * Pow2(index')
    ensures ReadyAt(c - w, index', digit', width, c)
    ensures RemainingAt(s, c - w, index', digit', c) == RemainingAt(s, c, index, digit, c)
  {
  }

  /** Delivering the digit of position i. */
  lemma Deliver(s: seq<u8>, c: int, index: int, digit: int, width: nat, i: nat)
    requires |s| == 32 && ReadyAt(c, index, digit, width, i) && c < i
    ensures var d := if i == index then digit else 0;
            && ReadyAt(c, index, digit, width, i - 1)
            && (d == 0 || Digit(d, width))
            && RemainingAt(s, c, index, digit, i) == d * Pow2(i) + RemainingAt(s, c, index, digit, i - 1)
  {
  }

  /** Before any digit all of the scalar remains; after the last, nothing does. */
  lemma Ends(s: seq<u8>, c: int, index: int, digit: int, width: nat, i: int)
    requires |s| == 32 && ReadyAt(c, index, digit, width, i)
    ensures index == -1 && 0 <= c && High(s, c) == 0 ==> RemainingAt(s, c, index, digit, i) == Num(s, 32)
    ensures i == -1 ==> RemainingAt(s, c, index, digit, i) == 0
  {
    if 0 <= c {
      HighNext(s, c);
    }
    if i == -1 {
      assert Pow2(0) == 1;
      DivModUnique(Num(s, 32), Num(s, 32), 0, 1);
    }
  }

  /** The incremental recoder: one digit a step, from the top position down. */
  class Slide {
    var nextIndex: i16
    var nextDigit: i8
    var nextCheck: u8

    /** The next position to look at; the byte wraps around below zero. */
    function Check(): (c: int)
      reads this
      ensures -1 <= c < 255
    {
      if nextCheck == 0xFF then -1 else nextCheck
    }

    ghost predicate Ready(width: nat, i: int)
      reads this
    {
      ReadyAt(Check(), nextIndex, nextDigit, width, i)
    }

    ghost function Remaining(s: seq<u8>, i: int): int
      requires |s| == 32 && (nextIndex == -1 || Check() < nextIndex)
      reads this
    {
      RemainingAt(s, Check(), nextIndex, nextDigit, i)
    }

    constructor (scalar: seq<u8>)
      requires |scalar| == 32 && Num(scalar, 32) < Pow2(253)
      ensures 1 <= nextCheck <= 253 && nextIndex == -1 && High(scalar, nextCheck) == 0
      ensures nextCheck > 1 ==> ScalarBit(scalar, nextCheck - 1) == 1
    {
      hide *;
      var i := 252;
      TopIsClear(scalar, 253);
      while i > 0 && ScalarBit(scalar, i) == 0
        invariant 0 <= i <= 252 && High(scalar, i + 1) == 0
      {
        HighNext(scalar, i);
        i := i - 1;
      }
      BitRange(scalar, i);
      nextCheck := i + 1;
      nextIndex := -1;
      nextDigit := -1;
    }

    /** Before the first digit, all of the scalar remains. */
    lemma Initial(scalar: seq<u8>, width: nat, i: int)
      requires |scalar| == 32 && nextIndex == -1 && 1 <= nextCheck <= i < 254 && High(scalar, nextCheck) == 0
      requires nextCheck != 0xFF
      ensures Ready(width, i) && Remaining(scalar, i) == Num(scalar, 32)
    {
      Ends(scalar, Check(), nextIndex, nextDigit, width, i);
      hide RemainingAt;
    }

    /** The digit of position i. */
    method Step(width: nat, i: nat, scalar: seq<u8>) returns (digit: i8)
      requires 2 <= width <= 5 && |scalar| == 32 && Ready(width, i)
      modifies this
      ensures Ready(width, i - 1)
      ensures digit == 0 || Digit(digit, width)
      ensures old(Remaining(scalar, i)) == digit * Pow2(i) + Remaining(scalar, i - 1)
    {
      hide RemainingAt, Digit, ScalarBit, Pow2;
      if i == nextCheck {
        if ScalarBit(scalar, i) == ScalarBit(scalar, i - 1) {
          Skip(scalar, Check(), nextIndex, nextDigit, width);
          nextCheck := (nextCheck - 1) % 0x100;
        } else {
          NewWindow(width, i, scalar);
        }
      }
      Deliver(scalar, Check(), nextIndex, nextDigit, width, i);
      digit := if i == nextIndex then nextDigit else 0;
    }

    method NewWindow(width: nat, i: nat, scalar: seq<u8>)
      requires 2 <= width <= 5 && |scalar| == 32 && Ready(width, i) && i == nextCheck
      requires ScalarBit(scalar, i) != ScalarBit(scalar, i - 1)
      modifies this
      ensures Ready(width, i) && Check() < i
      ensures old(Remaining(scalar, i)) == Remaining(scalar, i)
    {
      hide *;
      Parts(width, i, scalar);
      var w := if width < i + 1 then width else i + 1;
      var v := Gather(i, w, scalar);
      var lsb := LowestBit(v);
      var s := Log2(lsb);
      Window(scalar, i, nextIndex, nextDigit, width, w, v, s);
      nextIndex := i - (w - 1) + s;
      SmallWord(Sar(v, s));
      nextDigit := Sar(v, s);
      Wrapped(i, w);
      nextCheck := (nextCheck - w) % 0x100;
      Parts(width, i, scalar);
    }

    lemma Parts(width: nat, i: int, scalar: seq<u8>)
      requires |scalar| == 32
      ensures Check() == if nextCheck == 0xFF then -1 else nextCheck
      ensures Ready(width, i) <==> ReadyAt(Check(), nextIndex, nextDigit, width, i)
      ensures Ready(width, i) && nextCheck == i ==> Check() == i < 254
      ensures Ready(width, i) ==> Check() < 254 && (nextIndex == -1 || Check() < nextIndex)
      ensures nextIndex == -1 || Check() < nextIndex ==> Remaining(scalar, i) == RemainingAt(scalar, Check(), nextIndex, nextDigit, i)
    {
      hide RemainingAt, Digit;
    }
  }

  lemma SmallWord(x: int)
    requires Abs(x) < 0x80
    ensures -0x80 < x < 0x80
  {
  }

  lemma Wrapped(c: nat, w: nat)
    requires c < 254 && 1 <= w <= c + 1
    ensures (c - w) % 0x100 == if w == c + 1 then 0xFF else c - w
  {
  }

  method Gather(i: nat, w: nat, scalar: seq<u8>) returns (v: int)
    requires 1 <= w <= i + 1 && i < 8 * |scalar|
    ensures v == WindowValue(scalar, i, w)
  {
    v := -(ScalarBit(scalar, i) * Pow2(w - 1));
    for j := 0 to w - 1
      invariant v == -(ScalarBit(scalar, i) * Pow2(w - 1)) + Middle(scalar, i - (w - 1), j)
    {
      v := v + ScalarBit(scalar, i - (w - 1) + j) * Pow2(j);
    }
    v := v + ScalarBit(scalar, i - w);
  }

  /** The odd part of a window is a digit, and the shift stays inside the window. */
  lemma DigitOf(v: int, w: nat, width: nat, s: nat)
    requires 1 <= w <= width && 2 <= width <= 5 && v != 0 && Abs(v) <= Pow2(w - 1)
    requires s == Log2(LowestBit(v))
    ensures s <= w - 1 && v == (Sar(v, s)) * Pow2(s) && Digit(Sar(v, s), width) && Abs(Sar(v, s)) < 0x80
  {
    hide *;
    Pow2Values();
    Pow2Mono(w - 1, 4);
    Pow2Mono(width - 1, 4);
    Pow2Mono(w - 1, width - 1);
    SmallWindow(v, Pow2(w - 1));
    OddPart(v);
    if s >= w {
      Pow2Mono(w, s);
      Pow2Next(w - 1);
    }
    var p, q, a, b := Pow2(s), Sar(v, s), Pow2(w - 1), Pow2(width - 1);
    if s > 0 {
      Pow2Next(s - 1);
    }
    Pow2Next(width - 2);
    OddBound(v, q, p, a, b, Pow2(s - if s > 0 then 1 else 0), Pow2(width - 2), s == 0);
    DigitIntro(q, width);
  }

  lemma SmallWindow(v: int, a: nat)
    requires Abs(v) <= a <= 16
    ensures -16 <= v <= 16
  {
  }

  lemma DigitIntro(d: int, width: nat)
    requires width >= 2 && d % 2 == 1 && Abs(d) < Pow2(width - 1)
    ensures Digit(d, width)
  {
  }

  lemma OddBound(v: int, q: int, p: nat, a: nat, b: nat, p': nat, b': nat, unit: bool)
    requires v == q * p && q % 2 == 1 && Abs(v) <= a && 1 <= a <= b
    requires if unit then p == 1 else p == 2 * p' && p' >= 1
    requires b == 2 * b'
    ensures Abs(q) < b && p < 2 * a
  {
    var z := Abs(q);
    AbsProduct(q, p);
    AbsOdd(q);
    hide *;
    Factor(p, z);
    if unit {
      assert z != b;
    } else {
      TwiceFactor(z, p);
    }
  }

  lemma AbsProduct(q: int, p: nat)
    ensures Abs(q * p) == Abs(q) * p
  {
  }

  lemma AbsOdd(q: int)
    requires q % 2 == 1
    ensures Abs(q) >= 1 && Abs(q) % 2 == 1
  {
  }

  lemma Factor(p: nat, z: nat)
    requires z >= 1
    ensures p <= z * p
  {
  }

  lemma TwiceFactor(z: nat, p: nat)
    requires p >= 2
    ensures 2 * z <= z * p
  {
  }

  lemma Placed(v: int, d: int, s: nat, lo: nat)
    requires v == d * Pow2(s)
    ensures Pow2(lo) * v == d * Pow2(lo + s)
  {
    Pow2Add(lo, s);
    MulAssoc(Pow2(lo), d, Pow2(s));
    MulAssoc(d, Pow2(lo), Pow2(s));
  }

  lemma TopIsClear(s: seq<u8>, n: nat)
    requires Num(s, |s|) < Pow2(n)
    ensures High(s, n) == 0
  {
    DivModUnique(Num(s, |s|), 0, Num(s, |s|), Pow2(n));
  }
}
