/** A message handed over in pieces. */
module Chunks {
  import opened Arith

  function Flatten<T>(chunks: seq<seq<T>>): seq<T> {
    if chunks == [] then [] else Flatten(chunks[..|chunks| - 1]) + chunks[|chunks| - 1]
  }

  /** The largest multiple of k up to n. */
  function Cut(n: nat, k: nat): (c: nat)
    requires 0 < k
    ensures c <= n < c + k && c % k == 0
  {
    DivModUnique(n / k * k, n / k, 0, k);
    assert n == n / k * k + n % k;
    n / k * k
  }

  /** There is only one. */
  lemma CutIs(n: nat, k: nat, c: nat)
    requires 0 < k && c <= n < c + k && c % k == 0
    ensures Cut(n, k) == c
  {
    DivModUnique(n, c / k, n - c, k);
  }

  /** The smallest y such that x + y is a multiple of pow2. */
  function Gap(x: nat, pow2: nat): (y: nat)
    requires pow2 > 0
    ensures y < pow2 && (x + y) % pow2 == 0
  {
    DivModUnique(x + (0 - x) % pow2, -((0 - x) / pow2), 0, pow2);
    (0 - x) % pow2
  }

  lemma Assoc<T>(a: seq<T>, b: seq<T>, c: seq<T>)
    ensures (a + b) + c == a + (b + c)
  {
  }

  /** A prefix, and the slice behind it. */
  lemma Slices<T>(s: seq<T>, at: nat, n: nat)
    requires at + n <= |s|
    ensures s[..at] + s[at..at + n] == s[..at + n]
  {
  }

  lemma SliceOfSlice<T>(s: seq<T>, off: nat, n: nat, lo: nat, hi: nat)
    requires off + n <= |s| && lo <= hi <= n
    ensures s[off..off + n][lo..hi] == s[off + lo..off + hi]
  {
    var a, b := s[off..off + n][lo..hi], s[off + lo..off + hi];
    forall k | 0 <= k < |b| ensures a[k] == b[k] {
      assert s[off..off + n][lo + k] == s[off + (lo + k)];
    }
    assert a == b;
  }

  lemma NothingYet<T>(chunks: seq<seq<T>>)
    ensures Flatten(chunks[..0]) == []
  {
    assert chunks[..0] == [];
  }

  lemma FlattenNext<T>(chunks: seq<seq<T>>, i: nat)
    requires i < |chunks|
    ensures Flatten(chunks[..i + 1]) == Flatten(chunks[..i]) + chunks[i]
  {
    assert chunks[..i + 1][..i] == chunks[..i];
  }
}
