/** SHA-256 as the boot code computes it: hashing in pieces gives the hash of section 6.2.2 of FIPS 180-4. */
module Sha256 {
  import opened Arith
  import opened Bits
  import opened BitLaws
  import opened Limbs
  import opened Chunks

  // The functions and constants of section 4

  function Rotr(x: u32, n: nat): u32
    requires 0 < n < 32
  {
    OrU32(ShrU32(x, n), Shl32(x, 32 - n))
  }

  function Ch(x: u32, y: u32, z: u32): u32 {
    XorU32(AndU32(x, y), AndU32(Not32(x), z))
  }

  function Maj(x: u32, y: u32, z: u32): u32 {
    XorU32(XorU32(AndU32(x, y), AndU32(x, z)), AndU32(y, z))
  }

  function Big0(x: u32): u32 {
    XorU32(XorU32(Rotr(x, 2), Rotr(x, 13)), Rotr(x, 22))
  }

  function Big1(x: u32): u32 {
    XorU32(XorU32(Rotr(x, 6), Rotr(x, 11)), Rotr(x, 25))
  }

  function Small0(x: u32): u32 {
    XorU32(XorU32(Rotr(x, 7), Rotr(x, 18)), ShrU32(x, 3))
  }

  function Small1(x: u32): u32 {
    XorU32(XorU32(Rotr(x, 17), Rotr(x, 19)), ShrU32(x, 10))
  }

  function Wrap32(x: nat): u32 {
    x % 0x1_0000_0000
  }

  /** Addition modulo 2^32. */
  function Plus(x: u32, y: u32): u32 {
    Wrap32(x + y)
  }

  /** A word of the schedule from the words 2, 7, 15 and 16 places before it. */
  function Expand(w2: u32, w7: u32, w15: u32, w16: u32): u32 {
    Wrap32(Small1(w2) + w7 + Small0(w15) + w16)
  }

  /** The temporary words of a round. */
  function T1(e: u32, f: u32, g: u32, h: u32, k: u32, w: u32): u32 {
    Wrap32(h + Big1(e) + Ch(e, f, g) + k + w)
  }

  function T2(a: u32, b: u32, c: u32): u32 {
    Wrap32(Big0(a) + Maj(a, b, c))
  }

  /** The constants of the rounds, eight to a row. */
  function K(row: nat): (k: seq<u32>)
    requires row < 8
    ensures |k| == 8
  {
    match row
    case 0 => [0x428a2f98, 0x71374491, 0xb5c0fbcf, 0xe9b5dba5, 0x3956c25b, 0x59f111f1, 0x923f82a4, 0xab1c5ed5]
    case 1 => [0xd807aa98, 0x12835b01, 0x243185be, 0x550c7dc3, 0x72be5d74, 0x80deb1fe, 0x9bdc06a7, 0xc19bf174]
    case 2 => [0xe49b69c1, 0xefbe4786, 0x0fc19dc6, 0x240ca1cc, 0x2de92c6f, 0x4a7484aa, 0x5cb0a9dc, 0x76f988da]
    case 3 => [0x983e5152, 0xa831c66d, 0xb00327c8, 0xbf597fc7, 0xc6e00bf3, 0xd5a79147, 0x06ca6351, 0x14292967]
    case 4 => [0x27b70a85, 0x2e1b2138, 0x4d2c6dfc, 0x53380d13, 0x650a7354, 0x766a0abb, 0x81c2c92e, 0x92722c85]
    case 5 => [0xa2bfe8a1, 0xa81a664b, 0xc24b8b70, 0xc76c51a3, 0xd192e819, 0xd6990624, 0xf40e3585, 0x106aa070]
    case 6 => [0x19a4c116, 0x1e376c08, 0x2748774c, 0x34b0bcb5, 0x391c0cb3, 0x4ed8aa4a, 0x5b9cca4f, 0x682e6ff3]
    case _ => [0x748f82ee, 0x78a5636f, 0x84c87814, 0x8cc70208, 0x90befffa, 0xa4506ceb, 0xbef9a3f7, 0xc67178f2]
  }

  function Constant(t: nat): u32
    requires t < 64
  {
    K(t / 8)[t % 8]
  }

  function InitialState(): (s: seq<u32>)
    ensures |s| == 8
  {
    [0x6a09e667, 0xbb67ae85, 0x3c6ef372, 0xa54ff53a, 0x510e527f, 0x9b05688c, 0x1f83d9ab, 0x5be0cd19]
  }

  /** Four bytes as a word, and a word as four bytes, most significant first. */
  function LoadBe32(b: seq<u8>, i: nat): u32
    requires i + 4 <= |b|
  {
    OrU32(OrU32(OrU32(Shl32(b[i], 24), Shl32(b[i + 1], 16)), Shl32(b[i + 2], 8)), b[i + 3])
  }

  function StoreBe32(w: u32): (b: seq<u8>)
    ensures |b| == 4
  {
    [ShrU32(w, 24) % 0x100, ShrU32(w, 16) % 0x100, ShrU32(w, 8) % 0x100, w % 0x100]
  }

  // The hash computation of section 6.2.2

  /** Word t of the message schedule. */
  function W(block: seq<u8>, t: nat): (w: u32)
    requires |block| == 64 && t < 64
  {
    if t < 16 then LoadBe32(block, 4 * t)
    else Expand(W(block, t - 2), W(block, t - 7), W(block, t - 15), W(block, t - 16))
  }

  datatype Working = Working(a: u32, b: u32, c: u32, d: u32, e: u32, f: u32, g: u32, h: u32)

  function Round(v: Working, k: u32, w: u32): Working {
    var t1 := T1(v.e, v.f, v.g, v.h, k, w);
    Working(Plus(t1, T2(v.a, v.b, v.c)), v.a, v.b, v.c, Plus(v.d, t1), v.e, v.f, v.g)
  }

  function Start(s: seq<u32>): Working
    requires |s| == 8
  {
    Working(s[0], s[1], s[2], s[3], s[4], s[5], s[6], s[7])
  }

  function Rounds(s: seq<u32>, block: seq<u8>, t: nat): Working
    requires |s| == 8 && |block| == 64 && t <= 64
  {
    if t == 0 then Start(s)
    else Round(Rounds(s, block, t - 1), Constant(t - 1), W(block, t - 1))
  }

  /** The intermediate hash value after one more block. */
  function Compress(s: seq<u32>, block: seq<u8>): (r: seq<u32>)
    requires |s| == 8 && |block| == 64
    ensures |r| == 8
  {
    var v := Rounds(s, block, 64);
    [Plus(s[0], v.a), Plus(s[1], v.b), Plus(s[2], v.c), Plus(s[3], v.d), Plus(s[4], v.e), Plus(s[5], v.f), Plus(s[6], v.g), Plus(s[7], v.h)]
  }

  /** The hash value after all blocks of m. */
  function Fold(m: seq<u8>): (r: seq<u32>)
    requires |m| % 64 == 0
    ensures |r| == 8
    decreases |m|
  {
    if m == [] then InitialState() else Compress(Fold(m[..|m| - 64]), m[|m| - 64..])
  }

  /** A length in 64 bits, most significant byte first. */
  function Be64(x: u64): (b: seq<u8>)
    ensures |b| == 8
  {
    [x / 0x100_0000_0000_0000, x / 0x1_0000_0000_0000 % 0x100, x / 0x100_0000_0000 % 0x100, x / 0x1_0000_0000 % 0x100,
     x / 0x100_0000 % 0x100, x / 0x1_0000 % 0x100, x / 0x100 % 0x100, x % 0x100]
  }

  /** How many zero bytes bring the message, the one bit and the length to whole blocks. */
  function PadLength(n: nat): (z: nat)
    ensures z < 64 && (n + 9 + z) % 64 == 0
  {
    var z := (55 - n) % 64;
    DivModUnique(n + 9 + z, 1 - (55 - n) / 64, 0, 64);
    z
  }

  /** The padded message of section 5.1.1: a one bit, the least number of zeros, and the length in bits. For messages of
      2^64 bits and more, which the standard excludes, the length wraps around. */
  function Padded(m: seq<u8>): (p: seq<u8>)
    ensures |p| % 64 == 0
  {
    m + [0x80] + Zeros(PadLength(|m|)) + Be64(Wrap64(8 * |m|))
  }

  lemma Be64Injective(x: u64, y: u64)
    requires Be64(x) == Be64(y)
    ensures x == y
  {
    hide Be64;
    EightDigits(x);
    EightDigits(y);
  }

  /** A number is the number of its eight bytes. */
  lemma EightDigits(x: u64)
    ensures x == FromBe64(Be64(x))
  {
    var x1 := x / 0x100;
    var x2 := x1 / 0x100;
    var x3 := x2 / 0x100;
    var x4 := x3 / 0x100;
    var x5 := x4 / 0x100;
    var x6 := x5 / 0x100;
    assert x / 0x1_0000 == x2 && x / 0x100_0000 == x3 && x / 0x1_0000_0000 == x4;
    assert x / 0x100_0000_0000 == x5 && x / 0x1_0000_0000_0000 == x6 && x / 0x100_0000_0000_0000 == x6 / 0x100;
  }

  function FromBe64(b: seq<int>): int
    requires |b| == 8
  {
    ((((((b[0] * 0x100 + b[1]) * 0x100 + b[2]) * 0x100 + b[3]) * 0x100 + b[4]) * 0x100 + b[5]) * 0x100 + b[6]) * 0x100 + b[7]
  }

  /** Within the lengths that the standard allows, different messages are padded differently. */
  lemma PaddingInjective(m: seq<u8>, n: seq<u8>)
    requires 8 * |m| < 0x1_0000_0000_0000_0000 && 8 * |n| < 0x1_0000_0000_0000_0000 && Padded(m) == Padded(n)
    ensures m == n
  {
    hide Be64;
    var p, q := Padded(m), Padded(n);
    LengthField(m);
    LengthField(n);
    Be64Injective(8 * |m|, 8 * |n|);
    assert m == p[..|m|] && n == q[..|n|];
  }

  lemma LengthField(m: seq<u8>)
    requires 8 * |m| < 0x1_0000_0000_0000_0000
    ensures |Padded(m)| >= 8 && Padded(m)[|Padded(m)| - 8..] == Be64(8 * |m|)
  {
    hide Be64;
  }

  function Output(s: seq<u32>, n: nat): (d: seq<u8>)
    requires n <= |s|
    ensures |d| == 4 * n
  {
    if n == 0 then [] else Output(s, n - 1) + StoreBe32(s[n - 1])
  }

  /** The message digest. */
  function Digest(m: seq<u8>): seq<u8> {
    Output(Fold(Padded(m)), 8)
  }

  lemma FoldNext(m: seq<u8>, b: seq<u8>)
    requires |m| % 64 == 0 && |b| == 64
    ensures Fold(m + b) == Compress(Fold(m), b)
  {
    assert (m + b)[..|m + b| - 64] == m && (m + b)[|m + b| - 64..] == b;
    hide Compress;
  }

  lemma CompressIs(s: seq<u32>, block: seq<u8>, v: Working)
    requires |s| == 8 && |block| == 64 && v == Rounds(s, block, 64)
    ensures Compress(s, block) == [Plus(s[0], v.a), Plus(s[1], v.b), Plus(s[2], v.c), Plus(s[3], v.d),
                                   Plus(s[4], v.e), Plus(s[5], v.f), Plus(s[6], v.g), Plus(s[7], v.h)]
  {
  }

  // The code

  /** The message schedule, in an array. */
  method Schedule(block: seq<u8>) returns (w: array<u32>)
    requires |block| == 64
    ensures fresh(w) && w.Length == 64 && forall t :: 0 <= t < 64 ==> w[t] == W(block, t)
  {
    hide *;
    w := new u32[64](_ => 0);
    for i := 0 to 16
      invariant forall t :: 0 <= t < i ==> w[t] == W(block, t)
    {
      ScheduleAt(block, i);
      w[i] := LoadBe32(block, 4 * i);
    }
    for i := 16 to 64
      invariant forall t :: 0 <= t < i ==> w[t] == W(block, t)
    {
      ScheduleAt(block, i);
      w[i] := Expand(w[i - 2], w[i - 7], w[i - 15], w[i - 16]);
    }
  }

  lemma ScheduleAt(block: seq<u8>, t: nat)
    requires |block| == 64 && t < 64
    ensures W(block, t) == if t < 16 then LoadBe32(block, 4 * t)
                           else Expand(W(block, t - 2), W(block, t - 7), W(block, t - 15), W(block, t - 16))
  {
    hide LoadBe32, Expand;
  }

  /** The 64 rounds on eight working variables. */
  method Mix(s: seq<u32>, block: seq<u8>) returns (v: Working)
    requires |s| == 8 && |block| == 64
    ensures v == Rounds(s, block, 64)
  {
    hide W, K, Constant, T1, T2, Plus;
    var w := Schedule(block);
    var a, b, c, d, e, f, g, h := s[0], s[1], s[2], s[3], s[4], s[5], s[6], s[7];
    for i := 0 to 64
      invariant Working(a, b, c, d, e, f, g, h) == Rounds(s, block, i)
    {
      var t1 := T1(e, f, g, h, Constant(i), w[i]);
      var t2 := T2(a, b, c);
      h := g;
      g := f;
      f := e;
      e := Plus(d, t1);
      d := c;
      c := b;
      b := a;
      a := Plus(t1, t2);
    }
    v := Working(a, b, c, d, e, f, g, h);
  }

  /** The incremental interface. */
  class Context {
    const state: array<u32>
    const buffer: array<u8>
    var bitLen: u64
    var bufferLen: nat

    /** The blocks of m0 have been hashed and the bytes of tail are waiting. */
    ghost predicate Pending(m0: seq<u8>, tail: seq<u8>)
      reads this, state, buffer
    {
      && state.Length == 8 && buffer.Length == 64 && |m0| % 64 == 0 && bufferLen == |tail| < 64
      && state[..] == Fold(m0) && buffer[..bufferLen] == tail && bitLen == Wrap64(8 * |m0|)
    }

    /** All of m has been taken in, and less than a block of it waits. */
    ghost predicate Holds(m: seq<u8>)
      reads this, state, buffer
    {
      Pending(m[..Cut(|m|, 64)], m[Cut(|m|, 64)..])
    }

    constructor ()
      ensures fresh(state) && fresh(buffer) && Holds([])
    {
      hide *;
      var s := InitialState();
      state := new u32[8](i requires 0 <= i < 8 => s[i]);
      buffer := new u8[64](_ => 0);
      bitLen := 0;
      bufferLen := 0;
      new;
      assert state[..] == s && buffer[..0] == [];
      Begun();
    }

    lemma Begun()
      requires state.Length == 8 && buffer.Length == 64 && bufferLen == 0 && bitLen == 0 && state[..] == InitialState()
      ensures Holds([])
    {
      hide *;
      CutIs(0, 64, 0);
      assert buffer[..0] == [];
      FirstFold();
      Kept([], []);
      Join([], [], []);
    }

    lemma FirstFold()
      ensures Fold([]) == InitialState() && Wrap64(0) == 0
    {
      hide InitialState, Compress;
    }

    method Block(block: seq<u8>)
      requires state.Length == 8 && |block| == 64
      modifies state
      ensures state[..] == Compress(old(state[..]), block)
    {
      hide *;
      var s := state[..];
      var v := Mix(s, block);
      state[0], state[1], state[2], state[3] := Plus(s[0], v.a), Plus(s[1], v.b), Plus(s[2], v.c), Plus(s[3], v.d);
      state[4], state[5], state[6], state[7] := Plus(s[4], v.e), Plus(s[5], v.f), Plus(s[6], v.g), Plus(s[7], v.h);
      CompressIs(s, block, v);
    }

    lemma PendingFacts(m0: seq<u8>, tail: seq<u8>)
      requires Pending(m0, tail)
      ensures state.Length == 8 && buffer.Length == 64 && |m0| % 64 == 0 && bufferLen == |tail| < 64
      ensures state[..] == Fold(m0) && buffer[..bufferLen] == tail && bitLen == Wrap64(8 * |m0|)
    {
    }

    lemma Join(m: seq<u8>, m0: seq<u8>, tail: seq<u8>)
      requires Pending(m0, tail) && m == m0 + tail
      ensures Holds(m)
    {
      PendingFacts(m0, tail);
      SplitAt(m, m0, tail);
      hide Pending;
    }

    lemma Whole(m: seq<u8>, m0: seq<u8>, tail: seq<u8>)
      requires Holds(m) && m0 == m[..Cut(|m|, 64)] && tail == m[Cut(|m|, 64)..]
      ensures Pending(m0, tail) && m0 + tail == m
    {
      hide Pending;
    }

    /** Takes in some bytes. */
    method Update(data: seq<u8>, ghost m: seq<u8>)
      requires Holds(m)
      modifies this, state, buffer
      ensures Holds(m + data)
    {
      hide *;
      ghost var m0, tail := m[..Cut(|m|, 64)], m[Cut(|m|, 64)..];
      Whole(m, m0, tail);
      var at := 0;
      assert m + data[..0] == m;
      while at < |data|
        invariant at <= |data| && Pending(m0, tail) && m0 + tail == m + data[..at]
        decreases |data| - at
      {
        PendingFacts(m0, tail);
        var space := 64 - bufferLen;
        var take := if |data| - at < space then |data| - at else space;
        Append(data[at..at + take], tail);
        More(m, m0, tail, data, at, take);
        m0, tail := Flush(m0, tail + data[at..at + take]);
        at := at + take;
      }
      assert data[..at] == data;
      Join(m + data, m0, tail);
    }

    lemma More(m: seq<u8>, m0: seq<u8>, tail: seq<u8>, data: seq<u8>, at: nat, take: nat)
      requires at + take <= |data| && m0 + tail == m + data[..at]
      ensures m0 + (tail + data[at..at + take]) == m + data[..at + take]
    {
      Assoc(m0, tail, data[at..at + take]);
      Assoc(m, data[..at], data[at..at + take]);
      Slices(data, at, take);
    }

    /** Hashes the buffer once it is full. */
    method Flush(ghost m0: seq<u8>, ghost tail: seq<u8>) returns (ghost m0': seq<u8>, ghost tail': seq<u8>)
      requires state.Length == 8 && buffer.Length == 64 && |m0| % 64 == 0 && bufferLen == |tail| <= 64
      requires state[..] == Fold(m0) && buffer[..bufferLen] == tail && bitLen == Wrap64(8 * |m0|)
      modifies this, state
      ensures Pending(m0', tail') && m0' + tail' == m0 + tail
    {
      hide *;
      if bufferLen == 64 {
        assert buffer[..] == buffer[..bufferLen];
        Block(buffer[..]);
        bitLen := Wrap64(bitLen + 512);
        bufferLen := 0;
        BlockDone(m0, tail);
        m0', tail' := m0 + tail, [];
        assert m0' + tail' == m0 + tail;
      } else {
        Kept(m0, tail);
        m0', tail' := m0, tail;
      }
    }

    lemma Kept(m0: seq<u8>, tail: seq<u8>)
      requires state.Length == 8 && buffer.Length == 64 && |m0| % 64 == 0 && bufferLen == |tail| < 64
      requires state[..] == Fold(m0) && buffer[..bufferLen] == tail && bitLen == Wrap64(8 * |m0|)
      ensures Pending(m0, tail)
    {
    }

    lemma BlockDone(m0: seq<u8>, b: seq<u8>)
      requires state.Length == 8 && buffer.Length == 64 && |m0| % 64 == 0 && |b| == 64 && bufferLen == 0
      requires state[..] == Compress(Fold(m0), b) && bitLen == Wrap64(Wrap64(8 * |m0|) + 512)
      ensures Pending(m0 + b, [])
    {
      hide Compress, Fold;
      FoldNext(m0, b);
      WrapAdd(8 * |m0|, 512);
      assert 8 * |m0 + b| == 8 * |m0| + 512;
      assert buffer[..0] == [];
    }

    /** Copies bytes behind those that wait. */
    method Append(b: seq<u8>, ghost tail: seq<u8>)
      requires buffer.Length == 64 && bufferLen == |tail| && |tail| + |b| <= 64 && buffer[..bufferLen] == tail
      modifies this`bufferLen, buffer
      ensures bufferLen == |tail| + |b| && buffer[..bufferLen] == tail + b
    {
      for i := 0 to |b|
        invariant bufferLen == |tail|
        invariant buffer[..bufferLen + i] == tail + b[..i]
      {
        buffer[bufferLen + i] := b[i];
        assert tail + b[..i + 1] == tail + b[..i] + [b[i]];
      }
      assert b[..|b|] == b;
      bufferLen := bufferLen + |b|;
    }

    /** Pads the last block, or the last two, and writes the digest. */
    method Final(out: array<u8>, ghost m: seq<u8>)
      requires out.Length == 32 && out != buffer && Holds(m)
      modifies state, buffer, out
      ensures out[..] == Digest(m)
    {
      hide *;
      ghost var m0, tail := m[..Cut(|m|, 64)], m[Cut(|m|, 64)..];
      Whole(m, m0, tail);
      PendingFacts(m0, tail);
      var totalBits := Wrap64(bitLen + 8 * bufferLen);
      WrapAdd(8 * |m0|, 8 * bufferLen);
      assert 8 * |m| == 8 * |m0| + 8 * bufferLen;
      var i := bufferLen;
      buffer[i] := 0x80;
      i := i + 1;
      assert buffer[..i] == tail + [0x80];
      ghost var blocks, head := m0, tail + [0x80];
      if i > 56 {
        FirstPadded(i, m0, head);
        blocks, head := m0 + (head + Zeros(64 - |head|)), [];
        i := 0;
      }
      assert buffer[..i] == head;
      ClearTo(i, 56);
      assert buffer[..56] == head + Zeros(56 - |head|) by { ZerosAre(buffer[i..56]); }
      WriteLength(totalBits);
      ghost var last := head + Zeros(56 - |head|) + Be64(totalBits);
      assert buffer[..] == last;
      Block(buffer[..]);
      FoldNext(blocks, last);
      PaddingIs(m, m0, tail, blocks, head, last);
      WriteDigest(out, m);
    }

    /** Fills the block up with zeros and hashes it, when the length does not fit any more. */
    method FirstPadded(i: nat, ghost m0: seq<u8>, ghost head: seq<u8>)
      requires state.Length == 8 && buffer.Length == 64 && i == |head| <= 64 && buffer[..i] == head
      requires |m0| % 64 == 0 && state[..] == Fold(m0)
      modifies state, buffer
      ensures |(m0 + (head + Zeros(64 - |head|)))| % 64 == 0 && state[..] == Fold(m0 + (head + Zeros(64 - |head|)))
    {
      hide *;
      ClearTo(i, 64);
      assert buffer[..] == head + Zeros(64 - |head|) by { ZerosAre(buffer[i..]); }
      Block(buffer[..]);
      FoldNext(m0, buffer[..]);
    }

    method ClearTo(from: nat, to: nat)
      requires from <= to <= buffer.Length
      modifies buffer
      ensures buffer[..from] == old(buffer[..from]) && forall k :: from <= k < to ==> buffer[k] == 0
    {
      var i := from;
      while i < to
        invariant from <= i <= to
        invariant buffer[..from] == old(buffer[..from]) && forall k :: from <= k < i ==> buffer[k] == 0
      {
        buffer[i] := 0;
        i := i + 1;
      }
    }

    method WriteLength(totalBits: u64)
      requires buffer.Length == 64
      modifies buffer
      ensures buffer[..] == old(buffer[..56]) + Be64(totalBits)
    {
      buffer[56] := totalBits / 0x100_0000_0000_0000;
      buffer[57] := totalBits / 0x1_0000_0000_0000 % 0x100;
      buffer[58] := totalBits / 0x100_0000_0000 % 0x100;
      buffer[59] := totalBits / 0x1_0000_0000 % 0x100;
      buffer[60] := totalBits / 0x100_0000 % 0x100;
      buffer[61] := totalBits / 0x1_0000 % 0x100;
      buffer[62] := totalBits / 0x100 % 0x100;
      buffer[63] := totalBits % 0x100;
    }

    method WriteDigest(out: array<u8>, ghost m: seq<u8>)
      requires out.Length == 32 && state.Length == 8 && state[..] == Fold(Padded(m))
      modifies out
      ensures out[..] == Digest(m)
    {
      hide StoreBe32, Fold, Padded;
      ghost var s := state[..];
      for i := 0 to 8
        invariant out[..4 * i] == Output(s, i)
      {
        var b := StoreBe32(state[i]);
        out[4 * i], out[4 * i + 1], out[4 * i + 2], out[4 * i + 3] := b[0], b[1], b[2], b[3];
        assert out[..4 * (i + 1)] == out[..4 * i] + b;
      }
      assert out[..] == out[..32];
    }
  }

  lemma ZerosAre(z: seq<u8>)
    requires forall k :: 0 <= k < |z| ==> z[k] == 0
    ensures z == Zeros(|z|)
  {
  }

  /** One block or two: either way the blocks hashed are the padded message. */
  lemma PaddingIs(m: seq<u8>, m0: seq<u8>, tail: seq<u8>, blocks: seq<u8>, head: seq<u8>, last: seq<u8>)
    requires |m0| % 64 == 0 && |tail| < 64 && m == m0 + tail
    requires if |tail| + 1 > 56 then blocks == m0 + (tail + [0x80] + Zeros(64 - (|tail| + 1))) && head == []
             else blocks == m0 && head == tail + [0x80]
    requires last == head + Zeros(56 - |head|) + Be64(Wrap64(8 * |m|))
    ensures blocks + last == Padded(m)
  {
    hide Be64, Wrap64;
    var n := PadLength(|m|);
    assert |tail| == |m| % 64;
    if |tail| + 1 > 56 {
      assert n == 64 - (|tail| + 1) + 56;
      assert Zeros(64 - (|tail| + 1)) + Zeros(56) == Zeros(n);
      assert [] + Zeros(56) == Zeros(56);
    } else {
      assert n == 56 - (|tail| + 1);
    }
  }

  lemma SplitAt(m: seq<u8>, m0: seq<u8>, tail: seq<u8>)
    requires |m0| % 64 == 0 && |tail| < 64 && m == m0 + tail
    ensures m[..Cut(|m|, 64)] == m0 && m[Cut(|m|, 64)..] == tail
  {
  }

  /** The hash of one buffer, and of a message handed over in pieces. */
  method Hash(data: seq<u8>, out: array<u8>)
    requires out.Length == 32
    modifies out
    ensures out[..] == Digest(data)
  {
    hide *;
    var ctx := new Context();
    ctx.Update(data, []);
    assert [] + data == data;
    ctx.Final(out, data);
  }

  method HashChunks(chunks: seq<seq<u8>>, out: array<u8>)
    requires out.Length == 32
    modifies out
    ensures out[..] == Digest(Flatten(chunks))
  {
    hide *;
    var ctx := new Context();
    NothingYet(chunks);
    for i := 0 to |chunks|
      invariant ctx.Holds(Flatten(chunks[..i]))
    {
      FlattenNext(chunks, i);
      ctx.Update(chunks[i], Flatten(chunks[..i]));
    }
    assert chunks[..|chunks|] == chunks;
    ctx.Final(out, Flatten(chunks));
  }
}
