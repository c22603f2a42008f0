/** What the constants, the parameters and the output of BLAKE2b are. */
module Blake2bLaws {
  import opened Limbs
  import opened Bits
  import opened Blake2b

  /** k is what follows the point in the binary square root of p: 64 bits of it. */
  ghost predicate SquareRootBits(x: nat, p: nat, k: nat) {
    x % 0x1_00000000_00000000 == k && x * x <= p * 0x1_00000000_00000000_00000000_00000000 < (x + 1) * (x + 1)
  }

  /** The initialisation vector of section 2.6 of RFC 7693: the square roots of the first eight primes. */
  lemma VectorRoots(i: nat) returns (x: nat)
    requires i < 8
    ensures SquareRootBits(x, [2, 3, 5, 7, 11, 13, 17, 19][i], Iv()[i])
  {
    hide SquareRootBits;
    FirstFour();
    LastFour();
    x := [0x1_6a09e667f3bcc908, 0x1_bb67ae8584caa73b, 0x2_3c6ef372fe94f82b, 0x2_a54ff53a5f1d36f1,
          0x3_510e527fade682d1, 0x3_9b05688c2b3e6c1f, 0x4_1f83d9abfb41bd6b, 0x4_5be0cd19137e2179][i];
  }

  lemma FirstFour()
    ensures SquareRootBits(0x1_6a09e667f3bcc908, 2, 0x6a09e667f3bcc908)
    ensures SquareRootBits(0x1_bb67ae8584caa73b, 3, 0xbb67ae8584caa73b)
    ensures SquareRootBits(0x2_3c6ef372fe94f82b, 5, 0x3c6ef372fe94f82b)
    ensures SquareRootBits(0x2_a54ff53a5f1d36f1, 7, 0xa54ff53a5f1d36f1)
  {
  }

  lemma LastFour()
    ensures SquareRootBits(0x3_510e527fade682d1, 11, 0x510e527fade682d1)
    ensures SquareRootBits(0x3_9b05688c2b3e6c1f, 13, 0x9b05688c2b3e6c1f)
    ensures SquareRootBits(0x4_1f83d9abfb41bd6b, 17, 0x1f83d9abfb41bd6b)
    ensures SquareRootBits(0x4_5be0cd19137e2179, 19, 0x5be0cd19137e2179)
  {
  }

  /** A digest is the beginning of the whole hash, and reading that back gives its words. */
  lemma DigestWords(h: seq<u64>, n: nat, i: nat)
    requires n <= 8 * |h| && i < |h|
    ensures Digest(h, n) == Digest(h, 8 * |h|)[..n] && Load64(Digest(h, 8 * |h|), 8 * i) == h[i]
  {
    var d := Digest(h, 8 * |h|);
    InWord8(i);
    assert forall j :: 0 <= j < 8 ==> d[8 * i + j] == ByteOf(h[i], j);
    assert Digest(h, n) == d[..n];
    BytesAre(h[i]);
    hide ByteOf, Digest;
    Gathered(h[i]);
  }

  lemma BytesAre(w: u64)
    ensures ByteOf(w, 0) == w % 0x100 && ByteOf(w, 1) == w / 0x100 % 0x100 && ByteOf(w, 2) == w / 0x1_0000 % 0x100
    ensures ByteOf(w, 3) == w / 0x100_0000 % 0x100 && ByteOf(w, 4) == w / 0x1_0000_0000 % 0x100
    ensures ByteOf(w, 5) == w / 0x100_0000_0000 % 0x100 && ByteOf(w, 6) == w / 0x1_0000_0000_0000 % 0x100
    ensures ByteOf(w, 7) == w / 0x100_0000_0000_0000
  {
    Pow2Values();
    Powers();
    hide Pow2;
  }

  lemma Powers()
    ensures Pow2(40) == 0x100_0000_0000 && Pow2(48) == 0x1_0000_0000_0000 && Pow2(56) == 0x100_0000_0000_0000
  {
    Pow2Values();
    hide Pow2;
    Pow2Add(8, 32);
    Pow2Add(16, 32);
    Pow2Add(24, 32);
  }

  lemma Gathered(w: u64)
    ensures w == w % 0x100 + 0x100 * (w / 0x100 % 0x100) + 0x1_0000 * (w / 0x1_0000 % 0x100) + 0x100_0000 * (w / 0x100_0000 % 0x100)
              + 0x1_0000_0000 * (w / 0x1_0000_0000 % 0x100 + 0x100 * (w / 0x100_0000_0000 % 0x100)
                                 + 0x1_0000 * (w / 0x1_0000_0000_0000 % 0x100) + 0x100_0000 * (w / 0x100_0000_0000_0000))
  {
    var x1 := w / 0x100;
    var x2 := x1 / 0x100;
    var x3 := x2 / 0x100;
    var x4 := x3 / 0x100;
    var x5 := x4 / 0x100;
    var x6 := x5 / 0x100;
    assert w / 0x1_0000 == x2 && w / 0x100_0000 == x3 && w / 0x1_0000_0000 == x4;
    assert w / 0x100_0000_0000 == x5 && w / 0x1_0000_0000_0000 == x6 && w / 0x100_0000_0000_0000 == x6 / 0x100;
  }

  /** A key comes first, in a block of its own that is filled up with zeros. */
  lemma KeyBlockIs(key: seq<u8>)
    requires |key| <= 64
    ensures key == [] ==> KeyBlock(key) == []
    ensures key != [] ==> |KeyBlock(key)| == 128 && KeyBlock(key)[..|key|] == key && forall i :: |key| <= i < 128 ==> KeyBlock(key)[i] == 0
  {
  }
}
