/** Sums, copies and comparisons of field elements. */
module FieldOps {
  import opened Arith
  import opened Limbs
  import opened Bytes
  import opened ScalarBits
  import opened Field25519
  import opened FieldEncode

  /** Limbs within k times the tight bounds: what k tight elements can add up to. */
  ghost predicate Grown(f: seq<int>, k: nat) {
    |f| == 10 && k <= 3 && forall i :: 0 <= i < 10 ==>
      if i % 2 == 0 then -36909875 * k <= f[i] <= 36909875 * k else -18454937 * k <= f[i] <= 18454937 * k
  }

  /** What a product accepts is three times the tight bound, and one more for the odd limbs. */
  lemma LooseBound(f: seq<int>)
    ensures Loose(f) <==> |f| == 10 && forall i :: 0 <= i < 10 ==>
      if i % 2 == 0 then -3 * 36909875 <= f[i] <= 3 * 36909875 else -3 * 18454937 - 1 <= f[i] <= 3 * 18454937 + 1
  {
  }

  /** Three tight elements may be added or subtracted before a product. */
  lemma ThreeIsLoose(f: seq<int>, k: nat)
    requires Grown(f, k)
    ensures Loose(f) && (k == 1 ==> Tight(f))
  {
  }

  lemma OneIsTight(f: seq<int>)
    ensures Tight(f) <==> Grown(f, 1)
  {
  }

  lemma {:induction false} SumLinear(h: seq<int>, f: seq<int>, g: seq<int>, c: int, n: nat)
    requires n <= |h| && n <= |f| && n <= |g|
    requires forall i :: 0 <= i < n ==> h[i] == f[i] + c * g[i]
    ensures Sum(h, n) == Sum(f, n) + c * Sum(g, n)
  {
    if n == 0 {
    } else {
      SumLinear(h, f, g, c, n - 1);
      Linear(W(n - 1), f[n - 1], c, g[n - 1], Sum(g, n - 1));
    }
  }

  lemma Linear(w: int, f: int, c: int, g: int, s: int)
    ensures w * (f + c * g) + c * s == w * f + c * (s + w * g)
  {
  }

  /** h = f + g. */
  method FeAdd(h: array<i32>, f: array<i32>, g: array<i32>, ghost j: nat, ghost k: nat)
    requires h.Length == 10 && Grown(f[..], j) && Grown(g[..], k) && j + k <= 3
    modifies h
    ensures Grown(h[..], j + k) && FeVal(h[..]) == FeVal(old(f[..])) + FeVal(old(g[..]))
  {
    ghost var a, b := f[..], g[..];
    for i := 0 to 10
      invariant forall n :: i <= n < 10 ==> f[n] == a[n] && g[n] == b[n]
      invariant forall n :: 0 <= n < i ==> h[n] == a[n] + b[n]
    {
      h[i] := f[i] + g[i];
    }
    SumLinear(h[..], a, b, 1, 10);
  }

  /** h = f - g. */
  method FeSub(h: array<i32>, f: array<i32>, g: array<i32>, ghost j: nat, ghost k: nat)
    requires h.Length == 10 && Grown(f[..], j) && Grown(g[..], k) && j + k <= 3
    modifies h
    ensures Grown(h[..], j + k) && FeVal(h[..]) == FeVal(old(f[..])) - FeVal(old(g[..]))
  {
    ghost var a, b := f[..], g[..];
    for i := 0 to 10
      invariant forall n :: i <= n < 10 ==> f[n] == a[n] && g[n] == b[n]
      invariant forall n :: 0 <= n < i ==> h[n] == a[n] - b[n]
    {
      h[i] := f[i] - g[i];
    }
    SumLinear(h[..], a, b, -1, 10);
  }

  /** h = -f. */
  method FeNeg(h: array<i32>, f: array<i32>)
    requires h.Length == 10 && Tight(f[..])
    modifies h
    ensures Tight(h[..]) && FeVal(h[..]) == -FeVal(old(f[..]))
  {
    ghost var a := f[..];
    for i := 0 to 10
      invariant forall n :: i <= n < 10 ==> f[n] == a[n]
      invariant forall n :: 0 <= n < i ==> h[n] == -a[n]
    {
      h[i] := -f[i];
    }
    ghost var z := seq(10, _ => 0);
    ZeroLimbs(z, 10);
    SumLinear(h[..], z, a, -1, 10);
  }

  lemma {:induction false} ZeroLimbs(t: seq<int>, n: nat)
    requires n <= |t| && forall k :: 1 <= k < n ==> t[k] == 0
    ensures Sum(t, n) == if n == 0 then 0 else t[0]
  {
    if n == 0 {
    } else {
      ZeroLimbs(t, n - 1);
    }
  }

  method FeCopy(h: array<i32>, f: array<i32>)
    requires h.Length == f.Length == 10
    modifies h
    ensures h[..] == old(f[..])
  {
    for i := 0 to 10
      invariant f[..] == old(f[..]) && forall n :: 0 <= n < i ==> h[n] == f[n]
    {
      h[i] := f[i];
    }
  }

  /** h = x for a one-limb constant. */
  method FeSmall(h: array<i32>, x: i32)
    requires h.Length == 10 && -1 <= x <= 1
    modifies h
    ensures Tight(h[..]) && FeVal(h[..]) == x
  {
    h[0] := x;
    for i := 1 to 10
      invariant h[0] == x && forall n :: 1 <= n < i ==> h[n] == 0
    {
      h[i] := 0;
    }
    ZeroLimbs(h[..], 10);
  }

  /** f = g if b is 1; f keeps its value if b is 0. */
  method FeCCopy(f: array<i32>, g: array<i32>, b: int)
    requires f.Length == g.Length == 10 && 0 <= b <= 1
    modifies f
    ensures f[..] == if b == 1 then old(g[..]) else old(f[..])
  {
    ghost var a, c := f[..], g[..];
    for i := 0 to 10
      invariant forall n :: i <= n < 10 ==> f[n] == a[n] && g[n] == c[n]
      invariant forall n :: 0 <= n < i ==> f[n] == if b == 1 then c[n] else a[n]
    {
      f[i] := if b == 1 then g[i] else f[i];
    }
  }

  /** The parity of the representative in [0, p). */
  method FeIsOdd(f: array<i32>) returns (odd: int)
    requires f.Length == 10 && Tight(f[..])
    ensures odd == (FeVal(f[..]) % P()) % 2
  {
    var s := new u8[32];
    FeToBytes(s, f[..]);
    FirstByte(s[..]);
    odd := s[0] % 2;
  }

  /** 1 if f and g are equal in the field, 0 if not. */
  method FeIsEqual(f: array<i32>, g: array<i32>) returns (equal: int)
    requires f.Length == g.Length == 10 && Tight(f[..]) && Tight(g[..])
    ensures equal == if Cong(FeVal(f[..]), FeVal(g[..]), P()) then 1 else 0
  {
    var fs := new u8[32];
    var gs := new u8[32];
    FeToBytes(fs, f[..]);
    FeToBytes(gs, g[..]);
    equal := if fs[..] == gs[..] then 1 else 0;
    if Num(fs[..], 32) == Num(gs[..], 32) {
      NumInjective(fs[..], gs[..], 32);
      assert fs[..] == fs[..][..32] == gs[..][..32] == gs[..];
    }
  }
}
