/** Numbers held as little-endian arrays of 32-bit words, and the schoolbook products on them. */
module Limbs {
  import opened Arith

  const BASE: nat := 0x1_0000_0000

  type u8 = x: int | 0 <= x < 0x100
  type u32 = x: int | 0 <= x < 0x1_0000_0000
  type u64 = x: int | 0 <= x < 0x1_0000_0000_0000_0000

  function Wrap64(x: nat): u64 {
    x % 0x1_0000_0000_0000_0000
  }

  lemma WrapAdd(x: nat, y: nat)
    ensures Wrap64(Wrap64(x) + y) == Wrap64(x + y)
  {
  }

  function Zeros(n: nat): (z: seq<u8>)
    ensures |z| == n && forall i :: 0 <= i < n ==> z[i] == 0
  {
    seq(n, _ => 0)
  }

  /** BASE to the power n. */
  function Pw(n: nat): (p: nat)
    ensures p >= 1
  {
    if n == 0 then 1 else BASE * Pw(n - 1)
  }

  /** The number that the first n words of s denote, least significant word first. */
  function Val(s: seq<u32>, n: nat): nat
    requires n <= |s|
  {
    if n == 0 then 0 else Val(s, n - 1) + Pw(n - 1) * s[n - 1]
  }

  lemma {:induction false} PwAdd(m: nat, n: nat)
    ensures Pw(m + n) == Pw(m) * Pw(n)
  {
    if m == 0 {
    } else {
      PwAdd(m - 1, n);
      MulAssoc(BASE, Pw(m - 1), Pw(n));
    }
  }

  lemma {:induction false} ValBound(s: seq<u32>, n: nat)
    requires n <= |s|
    ensures Val(s, n) < Pw(n)
  {
    if n == 0 {
    } else {
      ValBound(s, n - 1);
      MulLe(Pw(n - 1), s[n - 1], BASE - 1);
    }
  }

  /** Only the words below n matter. */
  lemma {:induction false} ValAgree(s: seq<u32>, t: seq<u32>, n: nat)
    requires n <= |s| && n <= |t|
    requires forall k :: 0 <= k < n ==> s[k] == t[k]
    ensures Val(s, n) == Val(t, n)
  {
    if n == 0 {
    } else {
      ValAgree(s, t, n - 1);
    }
  }

  lemma {:induction false} ValZero(s: seq<u32>, n: nat)
    requires n <= |s| && forall k :: 0 <= k < n ==> s[k] == 0
    ensures Val(s, n) == 0
  {
    if n == 0 {
    } else {
      ValZero(s, n - 1);
    }
  }

  /** The words from m on contribute their own number, weighted. */
  lemma {:induction false} ValShift(s: seq<u32>, m: nat, n: nat)
    requires m + n <= |s|
    ensures Val(s, m + n) == Val(s, m) + Pw(m) * Val(s[m..], n)
  {
    if n == 0 {
    } else {
      ValShift(s, m, n - 1);
      PwAdd(m, n - 1);
      assert s[m..][n - 1] == s[m + n - 1];
      Distribute(Pw(m), Val(s[m..], n - 1), Pw(n - 1), s[m + n - 1]);
    }
  }

  lemma Distribute(a: int, b: int, c: int, d: int)
    ensures a * (b + c * d) == a * b + (a * c) * d
  {
  }

  lemma TopDigit(a: nat, b: nat, w: nat, x: nat, y: nat)
    requires a < w && b < w && a + w * x == b + w * y
    ensures a == b && x == y
  {
    MulSub(w, x, y);
    SmallMultiple(x - y, w);
  }

  /** One column of a row product: the word kept and the carry passed on recombine. */
  lemma ColumnStep(wi: nat, wj: nat, lo: nat, c: nat, vq: nat, q: nat, x: nat, vb: nat, b: nat, y: nat)
    requires lo + (wi * wj) * c == vq + wi * x * vb
    requires y == c + q + x * b
    ensures (lo + (wi * wj) * (y % BASE)) + (BASE * (wi * wj)) * (y / BASE)
         == (vq + (wi * wj) * q) + wi * x * (vb + wj * b)
  {
  }

  lemma Regroup(x: int, wi: int, wj: int, b: int)
    ensures (wi * wj) * (x * b) == wi * x * (wj * b)
  {
  }

  /** The column step, on the words themselves. */
  lemma RowColumn(p: seq<u32>, r: seq<u32>, q: seq<u32>, i: nat, j: nat, x: u32, b: seq<u32>, c: nat, y: nat)
    requires i + j < |p| == |r| == |q| && j < |b|
    requires Val(p, i + j) + Pw(i + j) * c == Val(q, i + j) + Pw(i) * x * Val(b, j)
    requires y == c + q[i + j] + x * b[j]
    requires r == p[i + j := y % BASE]
    ensures Val(r, i + j + 1) + Pw(i + j + 1) * (y / BASE) == Val(q, i + j + 1) + Pw(i) * x * Val(b, j + 1)
  {
    ValAgree(p, r, i + j);
    PwAdd(i, j);
    ColumnStep(Pw(i), Pw(j), Val(p, i + j), c, Val(q, i + j), q[i + j], x, Val(b, j), b[j], y);
  }

  /** Adds x * b, shifted by i words, to p. Words outside [i, i + n) keep their values. */
  method AddRow(p: array<u32>, i: nat, x: u32, b: seq<u32>, n: nat) returns (carry: u64)
    requires n <= |b| && i + n <= p.Length
    modifies p
    ensures forall k :: 0 <= k < p.Length && !(i <= k < i + n) ==> p[k] == old(p[k])
    ensures carry < BASE
    ensures Val(p[..], i + n) + Pw(i + n) * carry == Val(old(p[..]), i + n) + Pw(i) * x * Val(b, n)
  {
    ghost var q := p[..];
    carry := 0;
    for j := 0 to n
      invariant forall k :: 0 <= k < p.Length && !(i <= k < i + j) ==> p[k] == q[k]
      invariant carry < BASE
      invariant Val(p[..], i + j) + Pw(i + j) * carry == Val(q, i + j) + Pw(i) * x * Val(b, j)
    {
      ghost var before, c := p[..], carry;
      MulBound(x, b[j], BASE - 1, BASE - 1);
      carry := carry + p[i + j] + x * b[j];
      ghost var y := carry;
      p[i + j] := carry % BASE;
      carry := carry / BASE;
      RowColumn(before, p[..], q, i, j, x, b, c, y);
    }
  }

  /** A word stored just above n words raises their number by its weight. */
  lemma ValStore(q: seq<u32>, r: seq<u32>, n: nat)
    requires n < |q| == |r| && forall k :: 0 <= k < n ==> r[k] == q[k]
    ensures Val(r, n + 1) == Val(q, n) + Pw(n) * r[n]
  {
    ValAgree(q, r, n);
  }

  lemma RowDone(t: nat, p0: nat, a: seq<u32>, i: nat, vb: nat)
    requires i < |a|
    requires t == p0 + Val(a, i) * vb + Pw(i) * a[i] * vb
    ensures t == p0 + Val(a, i + 1) * vb
  {
  }

  /** The full product: p becomes a * b plus what its low words held. The words from |b| on are
      overwritten, whatever they were. */
  method Multiply(p: array<u32>, a: seq<u32>, b: seq<u32>)
    requires |a| + |b| == p.Length
    modifies p
    ensures Val(p[..], p.Length) == Val(old(p[..]), |b|) + Val(a, |a|) * Val(b, |b|)
  {
    var n := |b|;
    ghost var p0 := p[..];
    for i := 0 to |a|
      invariant Val(p[..], i + n) == Val(p0, n) + Val(a, i) * Val(b, n)
    {
      hide *;
      var carry := AddRow(p, i, a[i], b, n);
      ghost var q := p[..];
      p[i + n] := carry;
      ValStore(q, p[..], i + n);
      RowDone(Val(p[..], i + n + 1), Val(p0, n), a, i, Val(b, n));
    }
  }

  /** Carries that leave the low n words, and the columns never formed, are multiples of Pw(n). */
  lemma LowStep(wi: nat, wr: nat, w: nat, v: nat, q: nat, k: int, va: nat, x: nat, vr: nat, h: nat, carry: nat)
    requires w == wi * wr
    requires v + w * carry == q + wi * x * vr
    requires q + k * w == va * (vr + wr * h)
    ensures v + (k + carry + x * h) * w == (va + wi * x) * (vr + wr * h)
  {
  }

  /** v is the low part of the product of the first i words of a with b; k * Pw(n) was dropped. */
  ghost predicate LowPart(v: nat, k: int, a: seq<u32>, i: nat, b: seq<u32>, n: nat)
    requires i <= |a| && n <= |b|
  {
    v + k * Pw(n) == Val(a, i) * Val(b, n)
  }

  lemma LowRow(v: nat, q: nat, k: int, a: seq<u32>, i: nat, b: seq<u32>, n: nat, carry: nat) returns (k': int)
    requires i < |a| && i <= n <= |b| && LowPart(q, k, a, i, b, n)
    requires v + Pw(n) * carry == q + Pw(i) * a[i] * Val(b, n - i)
    ensures LowPart(v, k', a, i + 1, b, n)
  {
    var h := Val(b[n - i..], i);
    ValShift(b, n - i, i);
    PwAdd(i, n - i);
    LowStep(Pw(i), Pw(n - i), Pw(n), v, q, k, Val(a, i), a[i], Val(b, n - i), h, carry);
    k' := k + carry + a[i] * h;
  }

  lemma LowDone(v: nat, k: int, a: seq<u32>, b: seq<u32>, n: nat)
    requires n <= |a| && n <= |b| && LowPart(v, k, a, n, b, n) && v < Pw(n)
    ensures v == (Val(a, n) * Val(b, n)) % Pw(n)
  {
    DivModUnique(Val(a, n) * Val(b, n), k, v, Pw(n));
  }

  /** The low half of the product: only the columns below n are formed. */
  method MultiplyLow(p: array<u32>, a: seq<u32>, b: seq<u32>)
    requires |a| == |b| <= p.Length
    requires forall k :: 0 <= k < |a| ==> p[k] == 0
    modifies p
    ensures forall k :: |a| <= k < p.Length ==> p[k] == old(p[k])
    ensures Val(p[..], |a|) == (Val(a, |a|) * Val(b, |a|)) % Pw(|a|)
  {
    var n := |a|;
    ghost var k: int := 0;
    ValZero(p[..], n);
    assert LowPart(0, 0, a, 0, b, n);
    hide *;
    for i := 0 to n
      invariant forall k :: n <= k < p.Length ==> p[k] == old(p[k])
      invariant LowPart(Val(p[..], n), k, a, i, b, n)
    {
      ghost var q := p[..];
      var carry := AddRow(p, i, a[i], b, n - i);
      k := LowRow(Val(p[..], n), Val(q, n), k, a, i, b, n, carry);
    }
    ValBound(p[..], n);
    LowDone(Val(p[..], n), k, a, b, n);
  }
}
