/** The ChaCha20 stream with its 64-bit counter. The rounds on a block of sixteen words are a parameter. */
module ChaCha20 {
  import opened Arith
  import opened Bits
  import opened BitLaws
  import opened Limbs
  import opened Bytes

  type Rounds = seq<u32> -> seq<u32>

  /** "expand 32-byte k" */
  function Constant(): (c: seq<u8>)
    ensures |c| == 16
  {
    [0x65, 0x78, 0x70, 0x61, 0x6e, 0x64, 0x20, 0x33, 0x32, 0x2d, 0x62, 0x79, 0x74, 0x65, 0x20, 0x6b]
  }

  function Lo(n: nat): u32 {
    n % 0x1_0000_0000
  }

  function Hi(n: nat): u32 {
    n / 0x1_0000_0000 % 0x1_0000_0000
  }

  /** The sixteen input words of the block with a given counter. */
  function Input(key: seq<u8>, nonce: seq<u8>, ctr: u64): (w: seq<u32>)
    requires |key| == 32 && |nonce| == 8
    ensures |w| == 16
  {
    Words(Constant(), 4) + Words(key, 8) + [Lo(ctr), Hi(ctr)] + Words(nonce, 2)
  }

  /** Whatever the rounds yield, as sixteen words. */
  function Pool(rounds: Rounds, input: seq<u32>): (p: seq<u32>)
    ensures |p| == 16
  {
    var p := rounds(input);
    if |p| == 16 then p else seq(16, _ => 0)
  }

  /** Word j of a block of the key stream. */
  function StreamWord(rounds: Rounds, input: seq<u32>, j: nat): u32
    requires |input| == 16 && j < 16
  {
    (Pool(rounds, input)[j] as int + input[j] as int) % 0x1_0000_0000
  }

  /** Byte i of the key stream that begins with a given counter. */
  function StreamByte(rounds: Rounds, key: seq<u8>, nonce: seq<u8>, ctr: u64, i: nat): u8
    requires |key| == 32 && |nonce| == 8
  {
    WordBytes(StreamWord(rounds, Input(key, nonce, Wrap64(ctr + i / 64)), i % 64 / 4))[i % 4]
  }

  function Mask(a: u8, b: u8): u8 {
    Pow2Values();
    XorBound(a, b, 8);
    Xor(a, b)
  }

  /** The text, masked with the key stream. */
  function Crypt(rounds: Rounds, key: seq<u8>, nonce: seq<u8>, ctr: u64, text: seq<u8>): (c: seq<u8>)
    requires |key| == 32 && |nonce| == 8
    ensures |c| == |text|
  {
    seq(|text|, i requires 0 <= i < |text| => Mask(StreamByte(rounds, key, nonce, ctr, i), text[i]))
  }

  /** The counter after a text of n bytes. */
  function After(ctr: u64, n: nat): u64 {
    Wrap64(ctr + (n + 63) / 64)
  }

  // Properties of the stream

  /** Decrypting is encrypting again. */
  lemma CryptTwice(rounds: Rounds, key: seq<u8>, nonce: seq<u8>, ctr: u64, text: seq<u8>)
    requires |key| == 32 && |nonce| == 8
    ensures Crypt(rounds, key, nonce, ctr, Crypt(rounds, key, nonce, ctr, text)) == text
  {
    hide StreamByte;
    forall i | 0 <= i < |text|
      ensures Mask(StreamByte(rounds, key, nonce, ctr, i), Mask(StreamByte(rounds, key, nonce, ctr, i), text[i])) == text[i]
    {
      Unmask(StreamByte(rounds, key, nonce, ctr, i), text[i]);
    }
  }

  lemma Unmask(k: u8, x: u8)
    ensures Mask(k, Mask(k, x)) == x
  {
    XorComm(k, x);
    XorComm(k, Xor(x, k));
    XorTwice(x, k);
    hide Xor;
  }

  /** Encrypting in two calls, the first of whole blocks, with the counter that the first returns: the same stream. */
  lemma CryptSplit(rounds: Rounds, key: seq<u8>, nonce: seq<u8>, ctr: u64, one: seq<u8>, two: seq<u8>)
    requires |key| == 32 && |nonce| == 8 && |one| % 64 == 0
    ensures Crypt(rounds, key, nonce, ctr, one + two)
         == Crypt(rounds, key, nonce, ctr, one) + Crypt(rounds, key, nonce, After(ctr, |one|), two)
    ensures After(ctr, |one + two|) == After(After(ctr, |one|), |two|)
  {
    hide Mask, StreamWord, WordBytes, Wrap64;
    var n := |one| / 64;
    forall i | 0 <= i < |two|
      ensures StreamByte(rounds, key, nonce, ctr, |one| + i) == StreamByte(rounds, key, nonce, After(ctr, |one|), i)
    {
      BlockShift(n, i);
      WrapAdd(ctr + n, i / 64);
    }
    CeilAdd(n, |two|);
    WrapAdd(ctr + n, (|two| + 63) / 64);
    hide StreamByte;
  }

  lemma BlockShift(n: nat, i: nat)
    ensures (64 * n + i) / 64 == n + i / 64 && (64 * n + i) % 64 == i % 64 && (64 * n + i) % 4 == i % 4
    ensures (64 * n + 63) / 64 == n
  {
    DivModUnique(64 * n + i, n + i / 64, i % 64, 64);
    DivModUnique(64 * n + i, 16 * n + i / 4, i % 4, 4);
    DivModUnique(64 * n + 63, n, 63, 64);
  }

  lemma CeilAdd(n: nat, k: nat)
    ensures (64 * n + k + 63) / 64 == n + (k + 63) / 64 && (64 * n + 63) / 64 == n
  {
  }

  // Masking words

  lemma LowByte(a: u8, b: u8, x: nat, y: nat)
    ensures Xor(a as int + 0x100 * x, b as int + 0x100 * y) == Mask(a, b) as int + 0x100 * Xor(x, y)
  {
    Pow2Values();
    XorSplit(a, x, b, y, 8);
    hide Pow2, Xor;
  }

  /** Masking a word masks its bytes. */
  lemma WordMask(p: u32, s: seq<u8>, i: nat)
    requires i + 4 <= |s|
    ensures forall k :: 0 <= k < 4 ==> WordBytes(XorU32(p, Load32(s, i)))[k] == Mask(WordBytes(p)[k], s[i + k])
  {
    var b := WordBytes(p);
    FromBytes(p);
    MaskFour(b[0], b[1], b[2], b[3], s[i], s[i + 1], s[i + 2], s[i + 3], p, Load32(s, i));
    var t: seq<u8> := [Mask(b[0], s[i]), Mask(b[1], s[i + 1]), Mask(b[2], s[i + 2]), Mask(b[3], s[i + 3])];
    assert Load32(t, 0) == XorU32(p, Load32(s, i));
    WordOfBytes(t, 0);
    assert t[0..4] == t;
    hide WordBytes, Mask, XorU32, Load32;
  }

  lemma FromBytes(p: u32)
    ensures var b := WordBytes(p); p == b[0] as int + 0x100 * b[1] as int + 0x1_0000 * b[2] as int + 0x100_0000 * b[3] as int
  {
    Recombine(p);
  }

  lemma MaskFour(a0: u8, a1: u8, a2: u8, a3: u8, b0: u8, b1: u8, b2: u8, b3: u8, p: nat, w: nat)
    requires p == a0 as int + 0x100 * a1 as int + 0x1_0000 * a2 as int + 0x100_0000 * a3 as int
    requires w == b0 as int + 0x100 * b1 as int + 0x1_0000 * b2 as int + 0x100_0000 * b3 as int
    ensures Xor(p, w) == Mask(a0, b0) as int + 0x100 * Mask(a1, b1) as int + 0x1_0000 * Mask(a2, b2) as int + 0x100_0000 * Mask(a3, b3) as int
  {
    hide *;
    var x2: nat := a2 as int + 0x100 * a3 as int;
    var y2: nat := b2 as int + 0x100 * b3 as int;
    var x1: nat := a1 as int + 0x100 * x2;
    var y1: nat := b1 as int + 0x100 * y2;
    MaskIs(a3, b3);
    LowByte(a2, b2, a3, b3);
    LowByte(a1, b1, x2, y2);
    LowByte(a0, b0, x1, y1);
  }

  lemma MaskIs(a: u8, b: u8)
    ensures Mask(a, b) == Xor(a, b)
  {
  }

  // The code

  /** The key stream, or a text masked with it, from a counter on. Returns the counter for what follows. */
  method Djb(rounds: Rounds, out: array<u8>, text: seq<u8>, present: bool, key: seq<u8>, nonce: seq<u8>, ctr: u64) returns (ctr': u64)
    requires |key| == 32 && |nonce| == 8 && out.Length == |text|
    requires !present ==> forall i :: 0 <= i < |text| ==> text[i] == 0
    modifies out
    ensures out[..] == Crypt(rounds, key, nonce, ctr, text) && ctr' == After(ctr, |text|)
  {
    hide *;
    var input := Input(key, nonce, ctr);
    var nbBlocks := |text| / 64;
    BlockShift(nbBlocks, 0);
    CounterStart(ctr);
    MaskedNone(rounds, out[..], text, key, nonce, ctr);
    for i := 0 to nbBlocks
      invariant input == Input(key, nonce, Wrap64(ctr + i))
      invariant Masked(rounds, out[..], text, key, nonce, ctr, 64 * i)
    {
      WholeBlock(rounds, out, text, present, key, nonce, ctr, i, input);
      input := NextCounter(input, key, nonce, ctr, i);
    }
    if |text| % 64 > 0 {
      LastBlock(rounds, out, text, key, nonce, ctr, input);
    }
    MaskedAll(rounds, out[..], text, key, nonce, ctr);
    ctr' := CounterOf(input, key, nonce, ctr, |text|);
  }

  /** The first n bytes have been written. */
  ghost predicate Masked(rounds: Rounds, out: seq<u8>, text: seq<u8>, key: seq<u8>, nonce: seq<u8>, ctr: u64, n: nat)
    requires |key| == 32 && |nonce| == 8
  {
    n <= |out| == |text| && forall i :: 0 <= i < n ==> out[i] == Mask(StreamByte(rounds, key, nonce, ctr, i), text[i])
  }

  lemma CounterStart(ctr: u64)
    ensures Wrap64(ctr + 0) == ctr
  {
  }

  lemma MaskedNone(rounds: Rounds, out: seq<u8>, text: seq<u8>, key: seq<u8>, nonce: seq<u8>, ctr: u64)
    requires |key| == 32 && |nonce| == 8 && |out| == |text|
    ensures Masked(rounds, out, text, key, nonce, ctr, 0)
  {
  }

  lemma MaskedAll(rounds: Rounds, out: seq<u8>, text: seq<u8>, key: seq<u8>, nonce: seq<u8>, ctr: u64)
    requires |key| == 32 && |nonce| == 8 && Masked(rounds, out, text, key, nonce, ctr, |text|)
    ensures out == Crypt(rounds, key, nonce, ctr, text)
  {
  }

  /** The block, the word and the byte that a position of the stream lies in. */
  lemma Places(i: nat, j: nat, k: nat)
    requires j < 16 && k < 4
    ensures var at := 64 * i + 4 * j + k; at / 64 == i && at % 64 / 4 == j && at % 4 == k
  {
    hide *;
    DivModUnique(64 * i + 4 * j + k, i, 4 * j + k, 64);
    DivModUnique(4 * j + k, j, k, 4);
    DivModUnique(64 * i + 4 * j + k, 16 * i + j, k, 4);
  }

  /** Byte 4 j + k of block i comes from word j. */
  lemma StreamIs(rounds: Rounds, key: seq<u8>, nonce: seq<u8>, ctr: u64, i: nat, j: nat, k: nat)
    requires |key| == 32 && |nonce| == 8 && j < 16 && k < 4
    ensures StreamByte(rounds, key, nonce, ctr, 64 * i + 4 * j + k) == WordBytes(StreamWord(rounds, Input(key, nonce, Wrap64(ctr + i)), j))[k]
  {
    hide WordBytes, StreamWord, Input, Wrap64;
    Places(i, j, k);
  }

  method WholeBlock(rounds: Rounds, out: array<u8>, text: seq<u8>, present: bool, key: seq<u8>, nonce: seq<u8>, ghost ctr: u64, i: nat, input: seq<u32>)
    requires |key| == 32 && |nonce| == 8 && out.Length == |text| && 64 * (i + 1) <= |text|
    requires !present ==> forall k :: 0 <= k < |text| ==> text[k] == 0
    requires input == Input(key, nonce, Wrap64(ctr + i)) && Masked(rounds, out[..], text, key, nonce, ctr, 64 * i)
    modifies out
    ensures Masked(rounds, out[..], text, key, nonce, ctr, 64 * (i + 1))
  {
    hide *;
    for j := 0 to 16
      invariant Masked(rounds, out[..], text, key, nonce, ctr, 64 * i + 4 * j)
    {
      var at := 64 * i + 4 * j;
      var p := StreamWord(rounds, input, j);
      ghost var before := out[..];
      if present {
        Store32(out, at, XorU32(p, Load32(text, at)));
        WordMask(p, text, at);
        WordOfBytes(out[..], at);
      } else {
        Store32(out, at, p);
        WordOfBytes(out[..], at);
        ZeroMask(p);
      }
      assert out[..][at..at + 4] == out[..at + 4][at..];
      StreamIs(rounds, key, nonce, ctr, i, j, 0);
      StreamIs(rounds, key, nonce, ctr, i, j, 1);
      StreamIs(rounds, key, nonce, ctr, i, j, 2);
      StreamIs(rounds, key, nonce, ctr, i, j, 3);
      MaskedMore(rounds, before, out[..], text, key, nonce, ctr, at);
    }
  }

  lemma ZeroMask(p: u32)
    ensures forall k :: 0 <= k < 4 ==> WordBytes(p)[k] == Mask(WordBytes(p)[k], 0)
  {
    var b := WordBytes(p);
    XorZero(b[0]);
    XorZero(b[1]);
    XorZero(b[2]);
    XorZero(b[3]);
    hide WordBytes, Xor;
  }

  lemma MaskedMore(rounds: Rounds, before: seq<u8>, out: seq<u8>, text: seq<u8>, key: seq<u8>, nonce: seq<u8>, ctr: u64, at: nat)
    requires |key| == 32 && |nonce| == 8 && Masked(rounds, before, text, key, nonce, ctr, at)
    requires at + 4 <= |out| == |before| && out[..at] == before[..at]
    requires forall i :: at <= i < at + 4 ==> out[i] == Mask(StreamByte(rounds, key, nonce, ctr, i), text[i])
    ensures Masked(rounds, out, text, key, nonce, ctr, at + 4)
  {
    hide Mask, StreamByte;
    forall i | 0 <= i < at + 4 ensures out[i] == Mask(StreamByte(rounds, key, nonce, ctr, i), text[i]) {
      if i < at {
        assert out[i] == out[..at][i] == before[..at][i];
      }
    }
  }

  /** The key stream of one block, in new memory. */
  method StreamBlock(rounds: Rounds, key: seq<u8>, nonce: seq<u8>, ghost ctr: u64, n: nat, input: seq<u32>) returns (tmp: array<u8>)
    requires |key| == 32 && |nonce| == 8 && input == Input(key, nonce, Wrap64(ctr + n))
    ensures fresh(tmp) && tmp.Length == 64
    ensures forall k :: 0 <= k < 64 ==> tmp[k] == StreamByte(rounds, key, nonce, ctr, 64 * n + k)
  {
    hide *;
    tmp := new u8[64](_ => 0);
    for j := 0 to 16
      invariant forall k :: 0 <= k < 4 * j ==> tmp[k] == StreamByte(rounds, key, nonce, ctr, 64 * n + k)
    {
      ghost var before := tmp[..];
      Store32(tmp, 4 * j, StreamWord(rounds, input, j));
      WordOfBytes(tmp[..], 4 * j);
      StreamIs(rounds, key, nonce, ctr, n, j, 0);
      StreamIs(rounds, key, nonce, ctr, n, j, 1);
      StreamIs(rounds, key, nonce, ctr, n, j, 2);
      StreamIs(rounds, key, nonce, ctr, n, j, 3);
      Stored(tmp[..], before, 4 * j, WordBytes(StreamWord(rounds, input, j)));
    }
  }

  /** The last, incomplete block goes through a temporary one. */
  method LastBlock(rounds: Rounds, out: array<u8>, text: seq<u8>, key: seq<u8>, nonce: seq<u8>, ghost ctr: u64, input: seq<u32>)
    requires |key| == 32 && |nonce| == 8 && out.Length == |text| && input == Input(key, nonce, Wrap64(ctr + |text| / 64))
    requires Masked(rounds, out[..], text, key, nonce, ctr, 64 * (|text| / 64))
    modifies out
    ensures Masked(rounds, out[..], text, key, nonce, ctr, |text|)
  {
    hide *;
    var n := |text| / 64;
    var tmp := StreamBlock(rounds, key, nonce, ctr, n, input);
    TailLength(|text|);
    for i := 0 to |text| - 64 * n
      invariant forall k :: 0 <= k < 64 ==> tmp[k] == StreamByte(rounds, key, nonce, ctr, 64 * n + k)
      invariant Masked(rounds, out[..], text, key, nonce, ctr, 64 * n + i)
    {
      ghost var before := out[..];
      out[64 * n + i] := Mask(tmp[i], text[64 * n + i]);
      assert out[..] == before[64 * n + i := Mask(tmp[i], text[64 * n + i])];
      MaskedOne(rounds, before, out[..], text, key, nonce, ctr, 64 * n + i);
    }
  }

  lemma TailLength(n: nat)
    ensures 64 * (n / 64) <= n < 64 * (n / 64) + 64
  {
  }

  lemma Stored(now: seq<u8>, before: seq<u8>, at: nat, b: seq<u8>)
    requires at + 4 <= |now| == |before| && now[..at] == before[..at] && now[at..at + 4] == b
    ensures forall k :: 0 <= k < at ==> now[k] == before[k]
    ensures |b| == 4 && now[at] == b[0] && now[at + 1] == b[1] && now[at + 2] == b[2] && now[at + 3] == b[3]
  {
  }

  lemma MaskedOne(rounds: Rounds, before: seq<u8>, out: seq<u8>, text: seq<u8>, key: seq<u8>, nonce: seq<u8>, ctr: u64, at: nat)
    requires |key| == 32 && |nonce| == 8 && Masked(rounds, before, text, key, nonce, ctr, at) && at < |text|
    requires out == before[at := Mask(StreamByte(rounds, key, nonce, ctr, at), text[at])]
    ensures Masked(rounds, out, text, key, nonce, ctr, at + 1)
  {
  }

  /** The 64-bit counter in two words: when the low word wraps to zero the high one moves. */
  method NextCounter(input: seq<u32>, key: seq<u8>, nonce: seq<u8>, ghost ctr: u64, ghost i: nat) returns (r: seq<u32>)
    requires |key| == 32 && |nonce| == 8 && input == Input(key, nonce, Wrap64(ctr + i))
    ensures r == Input(key, nonce, Wrap64(ctr + (i + 1)))
  {
    hide Words, Constant, Wrap64, Lo, Hi;
    CounterStep(ctr + i);
    var low := Lo(input[12] as int + 1);
    r := input[12 := low];
    if r[12] == 0 {
      r := r[13 := Lo(r[13] as int + 1)];
    }
  }

  lemma CounterStep(n: nat)
    ensures var c, d := Wrap64(n), Wrap64(n + 1);
            Lo(Lo(c) + 1) == Lo(d) && Hi(d) == if Lo(d) == 0 then Lo(Hi(c) + 1) else Hi(c)
  {
    var c := Wrap64(n);
    WrapAdd(n, 1);
    hide Wrap64, Lo, Hi;
    Halves(c);
    Halves(Wrap64(n + 1));
    WrapNext(c);
    LowNext(Lo(c));
    LowNext(Hi(c));
    CarryHalf(Hi(c), Lo(c), Hi(Wrap64(n + 1)), Lo(Wrap64(n + 1)));
  }

  lemma Halves(c: u64)
    ensures c == 0x1_0000_0000 * Hi(c) + Lo(c)
  {
  }

  lemma WrapNext(c: u64)
    ensures Wrap64(c + 1) == if c == 0xffff_ffff_ffff_ffff then 0 else c + 1
  {
  }

  lemma LowNext(x: u32)
    ensures Lo(x + 1) == if x == 0xffff_ffff then 0 else x + 1
  {
  }

  lemma CarryHalf(h: u32, l: u32, h': u32, l': u32)
    requires var c := 0x1_0000_0000 * h + l; 0x1_0000_0000 * h' + l' == if c == 0xffff_ffff_ffff_ffff then 0 else c + 1
    ensures l' == (if l == 0xffff_ffff then 0 else l + 1)
    ensures h' == if l' == 0 then (if h == 0xffff_ffff then 0 else h + 1) else h
  {
  }

  /** The counter to return, from the two words. */
  method CounterOf(input: seq<u32>, key: seq<u8>, nonce: seq<u8>, ghost ctr: u64, size: nat) returns (r: u64)
    requires |key| == 32 && |nonce| == 8 && input == Input(key, nonce, Wrap64(ctr + size / 64))
    ensures r == After(ctr, size)
  {
    hide Words, Constant;
    r := (input[12] as int + 0x1_0000_0000 * input[13] as int + if size % 64 > 0 then 1 else 0) % 0x1_0000_0000_0000_0000;
    Joined(Wrap64(ctr + size / 64));
    CeilIs(size);
    WrapAdd(ctr + size / 64, if size % 64 > 0 then 1 else 0);
    hide Lo, Hi, Input;
  }

  lemma Joined(c: u64)
    ensures Lo(c) as int + 0x1_0000_0000 * Hi(c) as int == c
  {
  }

  lemma CeilIs(n: nat)
    ensures (n + 63) / 64 == n / 64 + if n % 64 > 0 then 1 else 0
  {
  }
}
