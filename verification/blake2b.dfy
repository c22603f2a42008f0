/** The streaming of BLAKE2b: input words filled byte by byte, and a compression put off until more input is known to
    follow. What the compression function does with a block is a parameter. */
module Blake2b {
  import opened Arith
  import opened Bits
  import opened Limbs
  import opened Bytes
  import opened ScalarBits
  import opened Chunks

  /** The compression function of section 3.2 of RFC 7693: chaining value, message words, low and high offset, last block. */
  type Compression = (seq<u64>, seq<u64>, u64, u64, bool) -> seq<u64>

  ghost predicate EightWords(f: Compression) {
    forall h, m, t0, t1, last :: |f(h, m, t0, t1, last)| == 8
  }

  /** The numbers that whole strings of bytes denote. */
  function Little(s: seq<u8>): nat {
    Num(s, |s|)
  }

  /** Message word w of a block of which the bytes t are known; the others are zero. */
  function WordAt(t: seq<u8>, w: nat): nat {
    Little(t[if 8 * w < |t| then 8 * w else |t|..if 8 * w + 8 < |t| then 8 * w + 8 else |t|])
  }

  lemma WordBound(t: seq<u8>, w: nat)
    ensures WordAt(t, w) < 0x1_0000_0000_0000_0000
  {
    LittleBound(t[if 8 * w < |t| then 8 * w else |t|..if 8 * w + 8 < |t| then 8 * w + 8 else |t|]);
    hide Little;
  }

  lemma LittleBound(s: seq<u8>)
    requires |s| <= 8
    ensures Little(s) < 0x1_0000_0000_0000_0000
  {
    assert Little(s) == Num(s, |s|);
    hide *;
    NumBound(s, |s|);
    Pw8IsPow2(|s|);
    Pow2Mono(8 * |s|, 64);
    Pow2Add(32, 32);
    Pow2Values();
  }

  /** The sixteen words of a block padded with zeros. */
  function BlockWords(t: seq<u8>): (m: seq<u64>)
    ensures |m| == 16
  {
    seq(16, (w: nat) => BlockWord(t, w))
  }

  function BlockWord(t: seq<u8>, w: nat): u64 {
    WordBound(t, w);
    WordAt(t, w)
  }

  function Hi(n: nat): u64 {
    n / 0x1_0000_0000_0000_0000 % 0x1_0000_0000_0000_0000
  }

  /** The initialisation vector. */
  function Iv(): (v: seq<u64>)
    ensures |v| == 8
  {
    [0x6a09e667f3bcc908, 0xbb67ae8584caa73b, 0x3c6ef372fe94f82b, 0xa54ff53a5f1d36f1,
     0x510e527fade682d1, 0x9b05688c2b3e6c1f, 0x1f83d9abfb41bd6b, 0x5be0cd19137e2179]
  }

  /** The first word of the parameter block, as the source masks it together: sizes, fan-out 1 and depth 1. */
  function Parameters(hashSize: u64, keySize: nat): nat {
    Xor(Xor(0x01010000, (keySize * 0x100) % 0x1_0000_0000_0000_0000), hashSize)
  }

  /** The initial chaining value. */
  function Initial(hashSize: u64, keySize: nat): (h: seq<u64>)
    ensures |h| == 8
  {
    InitialFits(hashSize, keySize);
    Iv()[0 := Xor(Iv()[0], Parameters(hashSize, keySize))]
  }

  lemma InitialFits(hashSize: u64, keySize: nat)
    ensures Xor(Iv()[0], Parameters(hashSize, keySize)) < 0x1_0000_0000_0000_0000
  {
    Pow2Values();
    Pow2Add(32, 32);
    hide Xor, Pow2;
    XorBound(0x01010000, (keySize * 0x100) % 0x1_0000_0000_0000_0000, 64);
    XorBound(Xor(0x01010000, (keySize * 0x100) % 0x1_0000_0000_0000_0000), hashSize, 64);
    XorBound(Iv()[0], Parameters(hashSize, keySize), 64);
  }

  /** For sizes of one byte the parameters are the plain fields. */
  lemma PlainParameters(hashSize: u64, keySize: nat)
    requires hashSize < 0x100 && keySize < 0x100
    ensures Parameters(hashSize, keySize) == 0x01010000 + 0x100 * keySize + hashSize
  {
    Pow2Values();
    hide Xor, Pow2;
    XorSplit(0, 0x0101, keySize, 0, 8);
    XorZero(0x0101);
    XorComm(0, keySize);
    XorZero(keySize);
    XorSplit(0, 0x010100, 0, keySize, 8);
    XorZero(0);
    XorSplit(0, 0x010100 + keySize, hashSize, 0, 8);
    XorZero(0x010100 + keySize);
    XorComm(0, hashSize);
    XorZero(hashSize);
  }

  /** Different sizes start from different chaining values. */
  lemma InitialInjective(n: u64, k: nat, n': u64, k': nat)
    requires n < 0x100 && k < 0x100 && n' < 0x100 && k' < 0x100 && Initial(n, k) == Initial(n', k')
    ensures n == n' && k == k'
  {
    PlainParameters(n, k);
    PlainParameters(n', k');
    hide *;
    var v, p, p' := Iv()[0], Parameters(n, k), Parameters(n', k');
    FirstInitial(n, k);
    FirstInitial(n', k');
    XorComm(v, p);
    XorComm(v, p');
    XorTwice(p, v);
    XorTwice(p', v);
    TwoBytes(n, k, n', k');
  }

  lemma FirstInitial(hashSize: u64, keySize: nat)
    ensures Initial(hashSize, keySize)[0] == Xor(Iv()[0], Parameters(hashSize, keySize))
  {
    InitialFits(hashSize, keySize);
    hide Xor, Parameters, Iv;
  }

  lemma TwoBytes(n: nat, k: nat, n': nat, k': nat)
    requires n < 0x100 && n' < 0x100 && 0x100 * k + n == 0x100 * k' + n'
    ensures n == n' && k == k'
  {
  }

  function Apply(f: Compression, h: seq<u64>, t: seq<u8>, n: nat, last: bool): seq<u64> {
    f(h, BlockWords(t), Wrap64(n), Hi(n), last)
  }

  /** The chaining value after full blocks that are not the last. */
  function Fold(f: Compression, h0: seq<u64>, d: seq<u8>): seq<u64>
    requires |d| % 128 == 0
    decreases |d|
  {
    if d == [] then h0 else Apply(f, Fold(f, h0, d[..|d| - 128]), d[|d| - 128..], |d|, false)
  }

  /** Where the last block begins: it holds at least one byte unless there is no data at all. */
  function LastStart(n: nat): (k: nat)
    ensures k <= n <= k + 128 && k % 128 == 0 && (n > 0 ==> k < n)
  {
    if n == 0 then 0 else (n - 1) / 128 * 128
  }

  /** The hash of section 3.3 of RFC 7693: all blocks but the last, then the last with its flag and the total length. */
  function Hash(f: Compression, h0: seq<u64>, d: seq<u8>): seq<u64> {
    var k := LastStart(|d|);
    Apply(f, Fold(f, h0, d[..k]), d[k..], |d|, true)
  }

  lemma FoldNext(f: Compression, h0: seq<u64>, d: seq<u8>, b: seq<u8>)
    requires |d| % 128 == 0 && |b| == 128
    ensures Fold(f, h0, d + b) == Apply(f, Fold(f, h0, d), b, |d| + 128, false)
  {
  }

  /** The source's increment of the 128-bit offset: the carry shows as a sum smaller than its term. */
  lemma OffsetStep(n: nat, y: nat)
    requires y <= 128
    ensures var x0 := Wrap64(Wrap64(n) + y);
            x0 == Wrap64(n + y) && (if x0 < y then Wrap64(Hi(n) + 1) else Hi(n)) == Hi(n + y)
  {
    var b := 0x1_0000_0000_0000_0000;
    var q, r := n / b, n % b;
    assert n == b * q + r;
    if r + y < b {
      DivModUnique(n + y, q, r + y, b);
    } else {
      DivModUnique(n + y, q + 1, r + y - b, b);
      WrapNext(q, b);
    }
  }

  lemma WrapNext(q: nat, b: nat)
    requires b > 0
    ensures (q % b + 1) % b == (q + 1) % b
  {
    var k, r := q / b, q % b;
    assert q == b * k + r;
    if r + 1 < b {
      DivModUnique(q + 1, k, r + 1, b);
      DivModUnique(r + 1, 0, r + 1, b);
    } else {
      DivModUnique(q + 1, k + 1, 0, b);
      DivModUnique(r + 1, 1, 0, b);
    }
  }

  // Words and bytes

  /** The word that the known bytes end in. */
  lemma LastWord(t: seq<u8>, w: nat)
    requires 8 * w <= |t| <= 8 * w + 8
    ensures WordAt(t, w) == Num(t[8 * w..], |t| - 8 * w)
  {
    var lo, hi := if 8 * w < |t| then 8 * w else |t|, if 8 * w + 8 < |t| then 8 * w + 8 else |t|;
    assert t[lo..hi] == t[8 * w..];
  }

  /** One more byte, by `|` into its word; the word's other bits are untouched. */
  lemma ByteJoins(t: seq<u8>, b: u8)
    requires |t| < 128
    ensures var w, j := |t| / 8, |t| % 8;
            && (b * Pow2(8 * j)) % 0x1_0000_0000_0000_0000 == b * Pow2(8 * j)
            && Or(WordAt(t, w), b * Pow2(8 * j)) == WordAt(t + [b], w)
  {
    hide *;
    var w, j := |t| / 8, |t| % 8;
    var s := t[8 * w..];
    assert |s| == j && 8 * w + j == |t|;
    assert (t + [b])[8 * w..] == s + [b];
    LastWord(t, w);
    LastWord(t + [b], w);
    NumAppend(s, b);
    NumBound(s, j);
    Pw8IsPow2(j);
    OrDisjoint(Num(s, j), b, 8 * j);
    InWord(b, j);
    Commuted(b, Pow2(8 * j));
  }

  lemma Commuted(x: int, y: int)
    ensures x * y == y * x
  {
  }

  lemma NumAppend(s: seq<u8>, b: u8)
    ensures Num(s + [b], |s| + 1) == Num(s, |s|) + Pw8(|s|) * b
  {
    NumAgree(s, s + [b], |s|);
  }

  lemma InWord(b: u8, j: nat)
    requires j < 8
    ensures (b * Pow2(8 * j)) % 0x1_0000_0000_0000_0000 == b * Pow2(8 * j)
  {
    Pow2Mono(8 * j, 56);
    Pow2Add(56, 8);
    Pow2Add(32, 32);
    Pow2Values();
    hide Pow2;
    MulBound(b, Pow2(8 * j), 0xFF, Pow2(56));
    DivModUnique(b * Pow2(8 * j), 0, b * Pow2(8 * j), 0x1_0000_0000_0000_0000);
  }

  lemma OtherWords(t: seq<u8>, b: seq<u8>, v: nat)
    requires v != |t| / 8 && |t| % 8 + |b| <= 8
    ensures WordAt(t + b, v) == WordAt(t, v)
  {
    var s := t + b;
    var lo, hi := if 8 * v < |t| then 8 * v else |t|, if 8 * v + 8 < |t| then 8 * v + 8 else |t|;
    var lo', hi' := if 8 * v < |s| then 8 * v else |s|, if 8 * v + 8 < |s| then 8 * v + 8 else |s|;
    assert s[lo'..hi'] == t[lo..hi];
  }

  /** The eight bytes at offset i as a word. */
  function Load64(s: seq<u8>, i: nat): u64
    requires i + 8 <= |s|
  {
    Load32(s, i) as int + 0x1_0000_0000 * Load32(s, i + 4) as int
  }

  /** A whole word at a word boundary. */
  lemma WordJoins(t: seq<u8>, b: seq<u8>)
    requires |t| % 8 == 0 && |b| == 8
    ensures WordAt(t + b, |t| / 8) == Load64(b, 0)
  {
    var w := |t| / 8;
    assert (t + b)[8 * w..] == b;
    LastWord(t + b, w);
    LoadIs(b);
    hide Num, Load64;
  }

  lemma LoadIs(b: seq<u8>)
    requires |b| == 8
    ensures Num(b, 8) == Load64(b, 0)
  {
    NumFour(b, 0);
    NumFour(b, 4);
    PwPw8(1);
    hide Load32;
  }

  lemma LoadFrom(s: seq<u8>, i: nat)
    requires i + 8 <= |s|
    ensures Load64(s, i) == Load64(s[i..i + 8], 0)
  {
  }

  // The code

  lemma GapFills(x: nat)
    requires x <= 128
    ensures x % 8 != 0 ==> Gap(x, 8) == 8 - x % 8
    ensures x % 128 != 0 ==> Gap(x, 128) == 128 - x
  {
  }

  class Context {
    const f: Compression
    const input: array<u64>
    const hashSize: u64
    var hash: seq<u64>
    var offset0: u64
    var offset1: u64
    var idx: nat

    /** The blocks of d0 have been compressed and the bytes of t wait in the input words. */
    ghost predicate Pending(h0: seq<u64>, d0: seq<u8>, t: seq<u8>)
      reads this, input
    {
      && input.Length == 16 && |d0| % 128 == 0 && idx == |t| <= 128 && input[..] == BlockWords(t)
      && hash == Fold(f, h0, d0) && offset0 == Wrap64(|d0|) && offset1 == Hi(|d0|)
    }

    /** All of d has been taken in; its last block, if there is any data, has not been compressed. */
    ghost predicate Holds(h0: seq<u64>, d: seq<u8>)
      reads this, input
    {
      Pending(h0, d[..LastStart(|d|)], d[LastStart(|d|)..])
    }

    lemma PendingFacts(h0: seq<u64>, d0: seq<u8>, t: seq<u8>)
      requires Pending(h0, d0, t)
      ensures input.Length == 16 && |d0| % 128 == 0 && idx == |t| <= 128
    {
    }

    lemma Whole(h0: seq<u64>, d: seq<u8>, d0: seq<u8>, t: seq<u8>)
      requires Holds(h0, d) && d0 == d[..LastStart(|d|)] && t == d[LastStart(|d|)..]
      ensures Pending(h0, d0, t) && d0 + t == d && (t == [] ==> d == [])
    {
    }

    lemma Join(h0: seq<u64>, d: seq<u8>, d0: seq<u8>, t: seq<u8>)
      requires Pending(h0, d0, t) && d == d0 + t && (t == [] ==> d == [])
      ensures Holds(h0, d)
    {
      PendingFacts(h0, d0, t);
      hide Pending;
      StartAt(d, d0, t);
    }

    /** Compresses the input words: advances the offset by what they hold. */
    method Compress(last: bool, ghost h0: seq<u64>, ghost d0: seq<u8>, ghost t: seq<u8>)
      requires Pending(h0, d0, t)
      modifies this`hash, this`offset0, this`offset1
      ensures hash == Apply(f, Fold(f, h0, d0), t, |d0| + |t|, last)
      ensures offset0 == Wrap64(|d0| + |t|) && offset1 == Hi(|d0| + |t|)
    {
      hide BlockWords, Fold, Wrap64, Hi;
      OffsetStep(|d0|, |t|);
      var y := idx;
      offset0 := Wrap64(offset0 + y);
      if offset0 < y {
        offset1 := Wrap64(offset1 + 1);
      }
      hash := f(hash, input[..], offset0, offset1, last);
    }

    /** A full block, known not to be the last, is compressed and the input begins anew. */
    method Flush(ghost h0: seq<u64>, ghost d0: seq<u8>, ghost t: seq<u8>)
      requires Pending(h0, d0, t) && |t| == 128
      modifies this`hash, this`offset0, this`offset1, this`idx, input
      ensures Pending(h0, d0 + t, [])
    {
      hide *;
      PendingFacts(h0, d0, t);
      Compress(false, h0, d0, t);
      idx := 0;
      Clear();
      FoldNext(f, h0, d0, t);
      Emptied(h0, d0 + t);
    }

    lemma Emptied(h0: seq<u64>, d0: seq<u8>)
      requires input.Length == 16 && |d0| % 128 == 0 && idx == 0 && input[..] == BlockWords([])
      requires hash == Fold(f, h0, d0) && offset0 == Wrap64(|d0|) && offset1 == Hi(|d0|)
      ensures Pending(h0, d0, [])
    {
    }

    method Clear()
      requires input.Length == 16
      modifies input
      ensures input[..] == BlockWords([])
    {
      for i := 0 to 16
        invariant forall k :: 0 <= k < i ==> input[k] == 0
      {
        input[i] := 0;
      }
      EmptyWords();
    }

    /** Bytes join their word one by one. */
    method FillBytes(b: seq<u8>, ghost h0: seq<u64>, ghost d0: seq<u8>, ghost t: seq<u8>)
      requires Pending(h0, d0, t) && |t| + |b| <= 128
      modifies this`idx, input
      ensures Pending(h0, d0, t + b)
    {
      hide *;
      assert t + b[..0] == t;
      for i := 0 to |b|
        invariant Pending(h0, d0, t + b[..i])
      {
        PendingFacts(h0, d0, t + b[..i]);
        FillByte(b[i], h0, d0, t + b[..i]);
        assert t + b[..i] + [b[i]] == t + b[..i + 1];
      }
      assert b[..|b|] == b;
    }

    method FillByte(b: u8, ghost h0: seq<u64>, ghost d0: seq<u8>, ghost t: seq<u8>)
      requires Pending(h0, d0, t) && |t| < 128
      modifies this`idx, input
      ensures Pending(h0, d0, t + [b])
    {
      PendingFacts(h0, d0, t);
      hide Fold, Wrap64, Hi, WordAt, Or, Pow2, BlockWords;
      var word, byte := idx / 8, idx % 8;
      ByteWords(t, b);
      input[word] := Or(input[word], (b * Pow2(8 * byte)) % 0x1_0000_0000_0000_0000);
      idx := idx + 1;
    }

    /** Whole words are loaded at a word boundary. */
    method FillWords(word: nat, b: seq<u8>, ghost h0: seq<u64>, ghost d0: seq<u8>, ghost t: seq<u8>)
      requires Pending(h0, d0, t) && |b| % 8 == 0 && |t| + |b| <= 128 && (b == [] || |t| == 8 * word)
      modifies this`idx, input
      ensures Pending(h0, d0, t + b)
    {
      hide BlockWords, Fold, Wrap64, Hi, Load64;
      var n := |b| / 8;
      assert t + b[..8 * 0] == t;
      for i := 0 to n
        invariant idx == |t| && input[..] == BlockWords(t + b[..8 * i])
      {
        WordLoaded(t + b[..8 * i], b[8 * i..8 * i + 8]);
        LoadFrom(b, 8 * i);
        assert t + b[..8 * i] + b[8 * i..8 * i + 8] == t + b[..8 * (i + 1)];
        input[word + i] := Load64(b, 8 * i);
      }
      assert b[..8 * n] == b;
      idx := idx + 8 * n;
    }

    /** Takes in some bytes. */
    method Update(message: seq<u8>, ghost h0: seq<u64>, ghost d: seq<u8>)
      requires Holds(h0, d)
      modifies this`hash, this`offset0, this`offset1, this`idx, input
      ensures Holds(h0, d + message)
    {
      hide *;
      if message == [] {
        assert d + message == d;
        return;
      }
      ghost var d0, t := d[..LastStart(|d|)], d[LastStart(|d|)..];
      Whole(h0, d, d0, t);
      var n1, t1 := AlignWord(message, h0, d0, t);
      var n2, t2 := AlignBlock(message[n1..], h0, d0, t1);
      var n3, d3, t3 := Blocks(message[n1..][n2..], h0, d0, t2);
      ghost var d4, t4 := Remainder(message[n1..][n2..][n3..], h0, d3, t3);
      Joined(message, n1, n2, n3, d0, t, t1, t2, d3, t3, d4, t4);
      Join(h0, d + message, d4, t4);
    }

    /** Completes the word begun, if the message reaches so far. */
    method AlignWord(message: seq<u8>, ghost h0: seq<u64>, ghost d0: seq<u8>, ghost t: seq<u8>) returns (n: nat, ghost t': seq<u8>)
      requires Pending(h0, d0, t)
      modifies this`idx, input
      ensures n <= |message| && t' == t + message[..n] && Pending(h0, d0, t')
      ensures |t'| % 8 == 0 || n == |message|
    {
      hide *;
      PendingFacts(h0, d0, t);
      GapFills(idx);
      n, t' := 0, t;
      if idx % 8 != 0 {
        n := if Gap(idx, 8) < |message| then Gap(idx, 8) else |message|;
        FillBytes(message[..n], h0, d0, t);
        t' := t + message[..n];
      } else {
        assert t == t + message[..0];
      }
    }

    /** Completes the block begun, in whole words, if the message reaches so far. */
    method AlignBlock(message: seq<u8>, ghost h0: seq<u64>, ghost d0: seq<u8>, ghost t: seq<u8>) returns (n: nat, ghost t': seq<u8>)
      requires Pending(h0, d0, t) && (|t| % 8 == 0 || message == [])
      modifies this`idx, input
      ensures n <= |message| && t' == t + message[..n] && Pending(h0, d0, t')
      ensures |t'| % 128 == 0 || |message| - n < 8
      ensures |t'| % 8 == 0 || message == []
    {
      hide *;
      PendingFacts(h0, d0, t);
      GapFills(idx);
      n, t' := 0, t;
      if idx % 128 != 0 {
        var m := if Gap(idx, 128) < |message| then Gap(idx, 128) else |message|;
        n := 8 * (m / 8);
        FillWords(idx / 8, message[..n], h0, d0, t);
        t' := t + message[..n];
      } else {
        assert t == t + message[..0];
      }
    }

    /** Loads full blocks, compressing each when the next is at hand. */
    method Blocks(message: seq<u8>, ghost h0: seq<u64>, ghost d0: seq<u8>, ghost t: seq<u8>)
      returns (n: nat, ghost d0': seq<u8>, ghost t': seq<u8>)
      requires Pending(h0, d0, t) && (|t| % 128 == 0 || |message| < 8)
      modifies this`hash, this`offset0, this`offset1, this`idx, input
      ensures n <= |message| && |message| - n < 128 && d0' + t' == d0 + t + message[..n] && Pending(h0, d0', t')
      ensures |t'| % 128 == 0 || |message| - n < 8
      ensures |t'| % 8 == 0 || |t'| == |t|
      ensures t' == [] ==> t == [] && n == 0
    {
      hide *;
      PendingFacts(h0, d0, t);
      var nbBlocks := |message| / 128;
      d0', t' := d0, t;
      assert d0 + t + message[..128 * 0] == d0 + t;
      for i := 0 to nbBlocks
        invariant Pending(h0, d0', t') && d0' + t' == d0 + t + message[..128 * i]
        invariant if i == 0 then t' == t else |t'| == 128
      {
        PendingFacts(h0, d0', t');
        ghost var before := d0' + t';
        if idx == 128 {
          Flush(h0, d0', t');
          d0', t' := d0' + t', [];
        }
        PendingFacts(h0, d0', t');
        FillWords(0, message[128 * i..128 * i + 128], h0, d0', t');
        assert before + message[128 * i..128 * i + 128] == d0 + t + message[..128 * (i + 1)];
        t' := t' + message[128 * i..128 * i + 128];
        PendingFacts(h0, d0', t');
      }
      n := 128 * nbBlocks;
    }

    /** Less than a block is left. */
    method Remainder(message: seq<u8>, ghost h0: seq<u64>, ghost d0: seq<u8>, ghost t: seq<u8>)
      returns (ghost d0': seq<u8>, ghost t': seq<u8>)
      requires Pending(h0, d0, t) && |message| < 128 && (|t| % 128 == 0 || |message| < 8)
      requires |t| % 8 == 0 || message == []
      modifies this`hash, this`offset0, this`offset1, this`idx, input
      ensures d0' + t' == d0 + t + message && Pending(h0, d0', t')
      ensures t' == [] ==> t == [] && message == []
    {
      hide *;
      PendingFacts(h0, d0, t);
      d0', t' := d0, t;
      if message != [] {
        if idx == 128 {
          Flush(h0, d0', t');
          d0', t' := d0' + t', [];
        }
        PendingFacts(h0, d0', t');
        if idx == 0 {
          Zeroed(h0, d0', t');
        }
        t' := FillRest(message, h0, d0', t');
      }
    }

    method FillRest(message: seq<u8>, ghost h0: seq<u64>, ghost d0: seq<u8>, ghost t: seq<u8>) returns (ghost t': seq<u8>)
      requires Pending(h0, d0, t) && |message| < 128 && |t| % 8 == 0 && (t == [] || (|message| < 8 && |t| <= 120))
      modifies this`idx, input
      ensures t' == t + message && Pending(h0, d0, t')
    {
      hide *;
      var n := 8 * (|message| / 8);
      FillWords(0, message[..n], h0, d0, t);
      FillBytes(message[n..], h0, d0, t + message[..n]);
      t' := t + message[..n] + message[n..];
      assert message[..n] + message[n..] == message;
    }

    /** Clearing an input that holds nothing. */
    method Zeroed(ghost h0: seq<u64>, ghost d0: seq<u8>, ghost t: seq<u8>)
      requires Pending(h0, d0, t) && t == []
      modifies input
      ensures Pending(h0, d0, t)
    {
      PendingFacts(h0, d0, t);
      hide BlockWords, Fold, Wrap64, Hi;
      Clear();
    }

    constructor (f: Compression, hashSize: u64, key: seq<u8>)
      requires |key| <= 64
      ensures this.f == f && this.hashSize == hashSize && fresh(input) && Holds(Initial(hashSize, |key|), KeyBlock(key))
    {
      hide *;
      var h0 := Initial(hashSize, |key|);
      this.f, this.hashSize := f, hashSize;
      input := new u64[16](_ => 0);
      hash, offset0, offset1, idx := h0, 0, 0, 0;
      new;
      EmptyWords();
      assert input[..] == seq(16, _ => 0);
      Empty(h0);
      if key != [] {
        LoadKey(key, h0);
      } else {
        Join(h0, [], [], []);
        KeyBlocks(key);
      }
    }

    lemma Empty(h0: seq<u64>)
      requires input.Length == 16 && input[..] == BlockWords([]) && hash == h0 && offset0 == offset1 == idx == 0
      ensures Pending(h0, [], [])
    {
    }

    /** The first block is the key. */
    method LoadKey(key: seq<u8>, ghost h0: seq<u64>)
      requires 0 < |key| <= 64 && Pending(h0, [], [])
      modifies this`idx, input
      ensures Holds(h0, KeyBlock(key))
    {
      hide *;
      KeyBlocks(key);
      FillWords(0, KeyBlock(key), h0, [], []);
      assert [] + KeyBlock(key) == KeyBlock(key);
      Join(h0, KeyBlock(key), [], KeyBlock(key));
    }

    /** Compresses the last block and writes the digest. */
    method Final(out: array<u8>, ghost h0: seq<u64>, ghost d: seq<u8>)
      requires Holds(h0, d) && out.Length >= DigestSize(hashSize)
      requires EightWords(f)
      modifies this`hash, this`offset0, this`offset1, out
      ensures out[..DigestSize(hashSize)] == Digest(Hash(f, h0, d), DigestSize(hashSize))
      ensures out[DigestSize(hashSize)..] == old(out[DigestSize(hashSize)..])
    {
      hide *;
      HashLength(f, h0, d);
      ghost var d0, t := d[..LastStart(|d|)], d[LastStart(|d|)..];
      Whole(h0, d, d0, t);
      PendingFacts(h0, d0, t);
      Compress(true, h0, d0, t);
      HashIs(f, h0, d, d0, t);
      WriteDigest(out, hash, DigestSize(hashSize));
    }
  }

  /** No digest is longer than the hash. */
  function DigestSize(hashSize: u64): (n: nat)
    ensures n <= 64 && n <= hashSize && (n == 64 || n == hashSize)
  {
    if hashSize < 64 then hashSize else 64
  }

  /** What a key puts before the message: nothing, or a block of its own. */
  function KeyBlock(key: seq<u8>): (b: seq<u8>)
    requires |key| <= 64
  {
    if key == [] then [] else key + seq(128 - |key|, _ => 0)
  }

  lemma KeyBlocks(key: seq<u8>)
    requires |key| <= 64
    ensures |KeyBlock(key)| == if key == [] then 0 else 128
  {
  }

  lemma HashIs(f: Compression, h0: seq<u64>, d: seq<u8>, d0: seq<u8>, t: seq<u8>)
    requires d0 == d[..LastStart(|d|)] && t == d[LastStart(|d|)..] && |d0| % 128 == 0
    ensures Hash(f, h0, d) == Apply(f, Fold(f, h0, d0), t, |d0| + |t|, true)
  {
    hide Apply, Fold;
  }

  lemma HashLength(f: Compression, h0: seq<u64>, d: seq<u8>)
    requires EightWords(f)
    ensures |Hash(f, h0, d)| == 8
  {
  }

  function ByteOf(w: u64, j: nat): u8
    requires j < 8
  {
    Shr(w, 8 * j) % 0x100
  }

  /** The first n bytes of the words h, little end first. */
  function Digest(h: seq<u64>, n: nat): (b: seq<u8>)
    requires n <= 8 * |h|
    ensures |b| == n
  {
    seq(n, i requires 0 <= i < n => ByteOf(h[i / 8], i % 8))
  }

  method Store64(out: array<u8>, i: nat, w: u64)
    requires i + 8 <= out.Length
    modifies out
    ensures forall j :: 0 <= j < 8 ==> out[i + j] == ByteOf(w, j)
    ensures forall j :: (0 <= j < i || i + 8 <= j < out.Length) ==> out[j] == old(out[j])
  {
    hide *;
    var k := 0;
    while k < 8
      invariant 0 <= k <= 8
      invariant forall j :: 0 <= j < k ==> out[i + j] == ByteOf(w, j)
      invariant forall j :: (0 <= j < i || i + 8 <= j < out.Length) ==> out[j] == old(out[j])
    {
      out[i + k] := ByteOf(w, k);
      k := k + 1;
    }
  }

  /** Writes whole words, then the bytes of a last partial one. */
  method WriteDigest(out: array<u8>, h: seq<u64>, n: nat)
    requires |h| == 8 && n <= 64 && n <= out.Length
    modifies out
    ensures out[..n] == Digest(h, n) && out[n..] == old(out[n..])
  {
    hide ByteOf;
    var nbWords := n / 8;
    for w := 0 to nbWords
      invariant forall j :: 0 <= j < 8 * w ==> out[j] == ByteOf(h[j / 8], j % 8)
      invariant forall j :: 8 * w <= j < out.Length ==> out[j] == old(out[j])
    {
      Store64(out, 8 * w, h[w]);
      InWord8(w);
    }
    for i := 8 * nbWords to n
      invariant forall j :: 0 <= j < i ==> out[j] == ByteOf(h[j / 8], j % 8)
      invariant forall j :: n <= j < out.Length ==> out[j] == old(out[j])
    {
      out[i] := ByteOf(h[i / 8], i % 8);
    }
  }

  lemma InWord8(w: nat)
    ensures forall j :: 8 * w <= j < 8 * w + 8 ==> j / 8 == w && j % 8 == j - 8 * w
  {
  }

  lemma EmptyWords()
    ensures BlockWords([]) == seq(16, _ => 0)
  {
  }

  lemma StartAt(d: seq<u8>, d0: seq<u8>, t: seq<u8>)
    requires d == d0 + t && |d0| % 128 == 0 && |t| <= 128 && (t == [] ==> d == [])
    ensures d[..LastStart(|d|)] == d0 && d[LastStart(|d|)..] == t
  {
  }

  /** What the four steps of an update take in is the message, and something waits if there was any. */
  lemma Joined(m: seq<u8>, i: nat, j: nat, k: nat, d0: seq<u8>, t: seq<u8>, t1: seq<u8>, t2: seq<u8>,
               d3: seq<u8>, t3: seq<u8>, d4: seq<u8>, t4: seq<u8>)
    requires i <= |m| && j <= |m| - i && k <= |m| - i - j
    requires t1 == t + m[..i] && t2 == t1 + m[i..][..j]
    requires d3 + t3 == d0 + t2 + m[i..][j..][..k] && d4 + t4 == d3 + t3 + m[i..][j..][k..]
    requires t3 == [] ==> t2 == [] && k == 0
    requires t4 == [] ==> t3 == [] && m[i..][j..][k..] == []
    ensures d4 + t4 == d0 + t + m && (t4 == [] ==> m == [])
  {
  }

  /** The words after one more byte. */
  lemma ByteWords(t: seq<u8>, b: u8)
    requires |t| < 128
    ensures var w := |t| / 8;
            BlockWords(t + [b]) == BlockWords(t)[w := BlockWord(t + [b], w)]
            && BlockWord(t + [b], w) == Or(BlockWords(t)[w], (b * Pow2(8 * (|t| % 8))) % 0x1_0000_0000_0000_0000)
  {
    hide WordAt, Or, Pow2;
    ByteJoins(t, b);
    forall v: nat | v < 16 && v != |t| / 8 ensures WordAt(t + [b], v) == WordAt(t, v) {
      OtherWords(t, [b], v);
    }
  }

  lemma WordLoaded(t: seq<u8>, b: seq<u8>)
    requires |t| % 8 == 0 && |b| == 8 && |t| <= 120
    ensures BlockWords(t + b) == BlockWords(t)[|t| / 8 := Load64(b, 0)]
  {
    hide WordAt, Load64;
    WordJoins(t, b);
    forall v: nat | v < 16 && v != |t| / 8 ensures WordAt(t + b, v) == WordAt(t, v) {
      OtherWords(t, b, v);
    }
  }

  /** However the message is split, the digest is that of the whole, keyed or not, and depends on both sizes. */
  method Keyed(out: array<u8>, hashSize: u64, f: Compression, key: seq<u8>, chunks: seq<seq<u8>>)
    requires |key| <= 64 && out.Length >= DigestSize(hashSize)
    requires EightWords(f)
    modifies out
    ensures |KeyedHash(f, hashSize, key, Flatten(chunks))| == 8
    ensures out[..DigestSize(hashSize)] == Digest(KeyedHash(f, hashSize, key, Flatten(chunks)), DigestSize(hashSize))
  {
    hide *;
    ghost var h0 := Initial(hashSize, |key|);
    KeyedIs(f, hashSize, key, Flatten(chunks));
    HashLength(f, h0, KeyBlock(key) + Flatten(chunks));
    var ctx := new Context(f, hashSize, key);
    NothingYet(chunks);
    assert KeyBlock(key) + [] == KeyBlock(key);
    for i := 0 to |chunks|
      invariant ctx.f == f && ctx.Holds(h0, KeyBlock(key) + Flatten(chunks[..i]))
    {
      FlattenNext(chunks, i);
      ctx.Update(chunks[i], h0, KeyBlock(key) + Flatten(chunks[..i]));
      assert KeyBlock(key) + Flatten(chunks[..i]) + chunks[i] == KeyBlock(key) + (Flatten(chunks[..i]) + chunks[i]);
    }
    assert chunks[..|chunks|] == chunks;
    ctx.Final(out, h0, KeyBlock(key) + Flatten(chunks));
  }

  /** The keyed hash of section 3.3 of RFC 7693. */
  function KeyedHash(f: Compression, hashSize: u64, key: seq<u8>, m: seq<u8>): seq<u64>
    requires |key| <= 64
  {
    Hash(f, Initial(hashSize, |key|), KeyBlock(key) + m)
  }

  lemma KeyedIs(f: Compression, hashSize: u64, key: seq<u8>, m: seq<u8>)
    requires |key| <= 64
    ensures KeyedHash(f, hashSize, key, m) == Hash(f, Initial(hashSize, |key|), KeyBlock(key) + m)
  {
    hide Hash, Initial;
  }
}
