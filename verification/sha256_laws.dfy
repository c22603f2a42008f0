/** What the functions and constants of SHA-256 compute: bit by bit, as sums, and as roots of primes. */
module Sha256Laws {
  import opened Arith
  import opened Bits
  import opened BitLaws
  import opened Limbs
  import opened Bytes
  import opened Sha256

  // Section 4.1.2 of FIPS 180-4, bit by bit

  /** Bits go around. */
  lemma RotrBit(x: u32, n: nat, j: nat)
    requires 0 < n < 32 && j < 32
    ensures Bit(Rotr(x, n), j) == Bit(x, (j + n) % 32)
  {
    Pow2Values();
    assert Rotr(x, n) == Or(Shr(x, n), Shl32(x, 32 - n));
    hide *;
    BitOr(Shr(x, n), Shl32(x, 32 - n), j);
    BitShr(x, n, j);
    BitShl32(x, 32 - n, j);
    Around(j, n);
    if j + n >= 32 {
      NoBit(x, 32, n + j);
    }
  }

  lemma Around(j: nat, n: nat)
    requires j < 32 && n < 32
    ensures (j + n) % 32 == if j + n < 32 then j + n else j + n - 32
  {
  }

  /** Three words masked together. */
  lemma XorThree(a: u32, b: u32, c: u32, j: nat)
    ensures Bit(XorU32(XorU32(a, b), c), j) == (Bit(a, j) + Bit(b, j) + Bit(c, j)) % 2
  {
    XorIsU32(a, b);
    XorIsU32(XorU32(a, b), c);
    hide *;
    BitXor(a, b, j);
    BitXor(XorU32(a, b), c, j);
  }

  lemma XorIsU32(a: u32, b: u32)
    ensures XorU32(a, b) == Xor(a, b)
  {
  }

  lemma ShiftBit(x: u32, n: nat, j: nat)
    ensures Bit(ShrU32(x, n), j) == if n + j < 32 then Bit(x, n + j) else 0
  {
    Pow2Values();
    assert ShrU32(x, n) == Shr(x, n);
    hide *;
    BitShr(x, n, j);
    if n + j >= 32 {
      NoBit(x, 32, n + j);
    }
  }

  lemma Big0Bit(x: u32, j: nat)
    requires j < 32
    ensures Bit(Big0(x), j) == (Bit(x, (j + 2) % 32) + Bit(x, (j + 13) % 32) + Bit(x, (j + 22) % 32)) % 2
  {
    hide Bit, XorU32, Rotr, ShrU32;
    XorThree(Rotr(x, 2), Rotr(x, 13), Rotr(x, 22), j);
    RotrBit(x, 2, j);
    RotrBit(x, 13, j);
    RotrBit(x, 22, j);
  }

  lemma Big1Bit(x: u32, j: nat)
    requires j < 32
    ensures Bit(Big1(x), j) == (Bit(x, (j + 6) % 32) + Bit(x, (j + 11) % 32) + Bit(x, (j + 25) % 32)) % 2
  {
    hide Bit, XorU32, Rotr, ShrU32;
    XorThree(Rotr(x, 6), Rotr(x, 11), Rotr(x, 25), j);
    RotrBit(x, 6, j);
    RotrBit(x, 11, j);
    RotrBit(x, 25, j);
  }

  lemma Small0Bit(x: u32, j: nat)
    requires j < 32
    ensures Bit(Small0(x), j) == (Bit(x, (j + 7) % 32) + Bit(x, (j + 18) % 32) + (if j + 3 < 32 then Bit(x, j + 3) else 0)) % 2
  {
    hide Bit, XorU32, Rotr, ShrU32;
    XorThree(Rotr(x, 7), Rotr(x, 18), ShrU32(x, 3), j);
    RotrBit(x, 7, j);
    RotrBit(x, 18, j);
    ShiftBit(x, 3, j);
  }

  lemma Small1Bit(x: u32, j: nat)
    requires j < 32
    ensures Bit(Small1(x), j) == (Bit(x, (j + 17) % 32) + Bit(x, (j + 19) % 32) + (if j + 10 < 32 then Bit(x, j + 10) else 0)) % 2
  {
    hide Bit, XorU32, Rotr, ShrU32;
    XorThree(Rotr(x, 17), Rotr(x, 19), ShrU32(x, 10), j);
    RotrBit(x, 17, j);
    RotrBit(x, 19, j);
    ShiftBit(x, 10, j);
  }

  /** The bits of x choose between those of y and z. */
  lemma ChBit(x: u32, y: u32, z: u32, j: nat)
    requires j < 32
    ensures Bit(Ch(x, y, z), j) == if Bit(x, j) == 1 then Bit(y, j) else Bit(z, j)
  {
    XorIsU32(AndU32(x, y), AndU32(Not32(x), z));
    AndIsU32(x, y);
    AndIsU32(Not32(x), z);
    hide Bit, XorU32, AndU32, Xor, And, Not32;
    BitXor(AndU32(x, y), AndU32(Not32(x), z), j);
    BitAnd(x, y, j);
    BitAnd(Not32(x), z, j);
    BitNot32(x, j);
  }

  lemma AndIsU32(a: u32, b: u32)
    ensures AndU32(a, b) == And(a, b)
  {
  }

  /** The majority of three bits. */
  lemma MajBit(x: u32, y: u32, z: u32, j: nat)
    ensures Bit(Maj(x, y, z), j) == if Bit(x, j) + Bit(y, j) + Bit(z, j) >= 2 then 1 else 0
  {
    hide Bit, XorU32, AndU32, And;
    XorThree(AndU32(x, y), AndU32(x, z), AndU32(y, z), j);
    AndIsU32(x, y);
    AndIsU32(x, z);
    AndIsU32(y, z);
    BitAnd(x, y, j);
    BitAnd(x, z, j);
    BitAnd(y, z, j);
  }

  // Words and bytes

  /** A word is read as the big-endian number of its four bytes. */
  lemma BigEndian(b: seq<u8>, i: nat)
    requires i + 4 <= |b|
    ensures LoadBe32(b, i) == 0x100_0000 * b[i] as int + 0x1_0000 * b[i + 1] as int + 0x100 * b[i + 2] as int + b[i + 3] as int
  {
    hide *;
    Pow2Values();
    var b0, b1, b2, b3 := b[i] as int, b[i + 1] as int, b[i + 2] as int, b[i + 3] as int;
    LoadIs(b, i);
    ShlByte(b[i]);
    ShlByte(b[i + 1]);
    ShlByte(b[i + 2]);
    Above(0x1_0000 * b1, b0, 24);
    Above(0x100 * b2, 0x100 * b0 + b1, 16);
    Above(b3, 0x1_0000 * b0 + 0x100 * b1 + b2, 8);
  }

  lemma LoadIs(b: seq<u8>, i: nat)
    requires i + 4 <= |b|
    ensures LoadBe32(b, i) == Or(Or(Or(Shl32(b[i], 24), Shl32(b[i + 1], 16)), Shl32(b[i + 2], 8)), b[i + 3])
  {
    hide Or, Shl32;
  }

  lemma ShlByte(b: u8)
    ensures Shl32(b, 24) == 0x100_0000 * b && Shl32(b, 16) == 0x1_0000 * b && Shl32(b, 8) == 0x100 * b
  {
    Pow2Values();
    hide Pow2;
  }

  lemma Above(a: nat, m: nat, k: nat)
    requires a < Pow2(k)
    ensures Or(m * Pow2(k), a) == a + m * Pow2(k)
  {
    hide *;
    Product(m, Pow2(k));
    OrDisjoint(a, m, k);
    OrComm(a, m * Pow2(k));
  }

  /** Reading back what was written. */
  lemma StoreLoad(w: u32)
    ensures LoadBe32(StoreBe32(w), 0) == w
  {
    hide *;
    StoreIs(w);
    BigEndian(StoreBe32(w), 0);
    TopByte(w);
    Recombine(w);
  }

  lemma TopByte(w: u32)
    ensures w / 0x100_0000 % 0x100 == w / 0x100_0000
  {
  }

  /** Writing what was read. */
  lemma LoadStore(b: seq<u8>)
    requires |b| == 4
    ensures StoreBe32(LoadBe32(b, 0)) == b
  {
    hide *;
    BigEndian(b, 0);
    StoreIs(LoadBe32(b, 0));
    Digits(LoadBe32(b, 0), b[3], b[2], b[1], b[0]);
  }

  lemma StoreIs(w: u32)
    ensures StoreBe32(w) == [w / 0x100_0000, w / 0x1_0000 % 0x100, w / 0x100 % 0x100, w % 0x100]
  {
    Pow2Values();
    hide Pow2;
  }

  lemma Digits(w: u32, a: u8, b: u8, c: u8, d: u8)
    requires w == 0x100_0000 * d + 0x1_0000 * c + 0x100 * b + a
    ensures w % 0x100 == a && w / 0x100 % 0x100 == b && w / 0x1_0000 % 0x100 == c && w / 0x100_0000 == d
  {
    var s: seq<u8> := [a, b, c, d];
    assert Load32(s, 0) == w;
    WordOfBytes(s, 0);
    assert s[0..4] == s;
  }

  /** The words of the digest are those of the last hash value. */
  lemma {:induction false} OutputWords(s: seq<u32>, n: nat, i: nat)
    requires i < n <= |s|
    ensures LoadBe32(Output(s, n), 4 * i) == s[i]
  {
    hide StoreBe32, LoadBe32;
    StoreLoad(s[n - 1]);
    if i == n - 1 {
      BigEndian(Output(s, n), 4 * i);
      BigEndian(StoreBe32(s[i]), 0);
    } else {
      OutputWords(s, n - 1, i);
      BigEndian(Output(s, n), 4 * i);
      BigEndian(Output(s, n - 1), 4 * i);
    }
  }

  // Section 6.2.2, as recurrences

  /** The first working variable before round t, or what it starts from, for t from -3 on; and the fifth. */
  function A(s: seq<u32>, block: seq<u8>, t: int): u32
    requires |s| == 8 && |block| == 64 && -3 <= t <= 64
  {
    if t < 0 then s[-t] else Rounds(s, block, t).a
  }

  function E(s: seq<u32>, block: seq<u8>, t: int): u32
    requires |s| == 8 && |block| == 64 && -3 <= t <= 64
  {
    if t < 0 then s[4 - t] else Rounds(s, block, t).e
  }

  /** The eight working variables are the last four values of the first and of the fifth. */
  lemma {:induction false} FourAndFour(s: seq<u32>, block: seq<u8>, t: nat)
    requires |s| == 8 && |block| == 64 && t <= 64
    ensures Rounds(s, block, t) == Working(A(s, block, t), A(s, block, t - 1), A(s, block, t - 2), A(s, block, t - 3),
                                           E(s, block, t), E(s, block, t - 1), E(s, block, t - 2), E(s, block, t - 3))
  {
    hide T1, T2, Plus, Constant, W;
    if t > 0 {
      FourAndFour(s, block, t - 1);
    }
  }

  /** One round: what is added, modulo 2^32, to the values four rounds back. */
  lemma RoundSums(s: seq<u32>, block: seq<u8>, t: nat)
    requires |s| == 8 && |block| == 64 && t < 64
    ensures Cong(E(s, block, t + 1), A(s, block, t - 3) + E(s, block, t - 3) + Big1(E(s, block, t))
                 + Ch(E(s, block, t), E(s, block, t - 1), E(s, block, t - 2)) + Constant(t) + W(block, t), 0x1_0000_0000)
    ensures Cong(A(s, block, t + 1) + A(s, block, t - 3), E(s, block, t + 1) + Big0(A(s, block, t))
                 + Maj(A(s, block, t), A(s, block, t - 1), A(s, block, t - 2)), 0x1_0000_0000)
  {
    hide *;
    FourAndFour(s, block, t);
    OneRound(Rounds(s, block, t), Constant(t), W(block, t));
    After(s, block, t);
  }

  lemma After(s: seq<u32>, block: seq<u8>, t: nat)
    requires |s| == 8 && |block| == 64 && t < 64
    ensures Round(Rounds(s, block, t), Constant(t), W(block, t)).a == A(s, block, t + 1)
    ensures Round(Rounds(s, block, t), Constant(t), W(block, t)).e == E(s, block, t + 1)
  {
    hide Round, Constant, W;
  }

  lemma OneRound(v: Working, k: u32, w: u32)
    ensures var r := Round(v, k, w);
      && Cong(r.e, v.d + v.h + Big1(v.e) + Ch(v.e, v.f, v.g) + k + w, 0x1_0000_0000)
      && Cong(r.a + v.d, r.e + Big0(v.a) + Maj(v.a, v.b, v.c), 0x1_0000_0000)
  {
    hide *;
    var t1, t2 := T1(v.e, v.f, v.g, v.h, k, w), T2(v.a, v.b, v.c);
    RoundIs(v, k, w);
    T1Cong(v.e, v.f, v.g, v.h, k, w);
    T2Cong(v.a, v.b, v.c);
    PlusCong(v.d, t1);
    PlusCong(t1, t2);
    TwoSums(t1, t2, v.h + Big1(v.e) + Ch(v.e, v.f, v.g) + k + w, Big0(v.a) + Maj(v.a, v.b, v.c), v.d,
            Round(v, k, w).e, Round(v, k, w).a, 0x1_0000_0000);
  }

  lemma TwoSums(t1: int, t2: int, x1: int, x2: int, d: int, e: int, a: int, m: int)
    requires m > 0 && Cong(t1, x1, m) && Cong(t2, x2, m) && Cong(e, d + t1, m) && Cong(a, t1 + t2, m)
    ensures Cong(e, d + x1, m) && Cong(a + d, e + x2, m)
  {
    hide *;
    CongRefl(d, m);
    CongAdd(d, d, t1, x1, m);
    CongTrans(e, d + t1, d + x1, m);
    CongAdd(a, t1 + t2, d, d, m);
    CongTrans(e, d + t1, d + x1, m);
    CongAdd(d + t1, e, t2, x2, m);
    CongTrans(a + d, d + t1 + t2, e + x2, m);
  }

  lemma RoundIs(v: Working, k: u32, w: u32)
    ensures var t1, t2 := T1(v.e, v.f, v.g, v.h, k, w), T2(v.a, v.b, v.c);
      Round(v, k, w).e == Plus(v.d, t1) && Round(v, k, w).a == Plus(t1, t2)
  {
    hide T1, T2, Plus;
  }

  lemma T1Cong(e: u32, f: u32, g: u32, h: u32, k: u32, w: u32)
    ensures Cong(T1(e, f, g, h, k, w), h + Big1(e) + Ch(e, f, g) + k + w, 0x1_0000_0000)
  {
    WrapCong(h + Big1(e) + Ch(e, f, g) + k + w);
    hide Ch, Big1, Wrap32, Cong;
  }

  lemma T2Cong(a: u32, b: u32, c: u32)
    ensures Cong(T2(a, b, c), Big0(a) + Maj(a, b, c), 0x1_0000_0000)
  {
    WrapCong(Big0(a) + Maj(a, b, c));
    hide Maj, Big0, Wrap32, Cong;
  }

  lemma WrapCong(x: nat)
    ensures Cong(Wrap32(x), x, 0x1_0000_0000)
  {
    CongMod(x, 0x1_0000_0000);
  }

  lemma PlusCong(x: u32, y: u32)
    ensures Cong(Plus(x, y), x + y, 0x1_0000_0000)
  {
    WrapCong(x + y);
  }

  /** The schedule: the words of the block, and then sums. */
  lemma ScheduleSums(block: seq<u8>, t: nat)
    requires |block| == 64 && t < 64
    ensures t < 16 ==> W(block, t) == LoadBe32(block, 4 * t)
    ensures t >= 16 ==> Cong(W(block, t), Small1(W(block, t - 2)) + W(block, t - 7) + Small0(W(block, t - 15)) + W(block, t - 16), 0x1_0000_0000)
  {
    hide *;
    ScheduleAt(block, t);
    if t >= 16 {
      ExpandCong(W(block, t - 2), W(block, t - 7), W(block, t - 15), W(block, t - 16));
    }
  }

  lemma ExpandCong(w2: u32, w7: u32, w15: u32, w16: u32)
    ensures Cong(Expand(w2, w7, w15, w16), Small1(w2) + w7 + Small0(w15) + w16, 0x1_0000_0000)
  {
    WrapCong(Small1(w2) + w7 + Small0(w15) + w16);
    hide Small0, Small1, Wrap32, Cong;
  }

  /** The next hash value: the last four values of both, added to the one before. */
  lemma CompressSums(s: seq<u32>, block: seq<u8>, i: nat)
    requires |s| == 8 && |block| == 64 && i < 8
    ensures Cong(Compress(s, block)[i], s[i] + (if i < 4 then A(s, block, 64 - i) else E(s, block, 68 - i)), 0x1_0000_0000)
  {
    hide *;
    FourAndFour(s, block, 64);
    CompressIs(s, block, Rounds(s, block, 64));
    PlusCong(s[i], if i < 4 then A(s, block, 64 - i) else E(s, block, 68 - i));
  }

  // The constants of section 4.2.2 and the first hash value of section 5.3.3

  /** The first 64 primes, eight to a row. */
  function Primes(row: nat): (p: seq<nat>)
    requires row < 8
    ensures |p| == 8
  {
    match row
    case 0 => [2, 3, 5, 7, 11, 13, 17, 19]
    case 1 => [23, 29, 31, 37, 41, 43, 47, 53]
    case 2 => [59, 61, 67, 71, 73, 79, 83, 89]
    case 3 => [97, 101, 103, 107, 109, 113, 127, 131]
    case 4 => [137, 139, 149, 151, 157, 163, 167, 173]
    case 5 => [179, 181, 191, 193, 197, 199, 211, 223]
    case 6 => [227, 229, 233, 239, 241, 251, 257, 263]
    case _ => [269, 271, 277, 281, 283, 293, 307, 311]
  }

  /** The t-th prime. */
  function Prime(t: nat): nat
    requires t < 64
  {
    Primes(t / 8)[t % 8]
  }

  /** k is what follows the point in the binary cube root of p: 32 bits of it. */
  ghost predicate CubeRootBits(x: nat, p: nat, k: nat) {
    x % 0x1_0000_0000 == k && x * x * x <= p * 0x1_00000000_00000000_00000000 < (x + 1) * (x + 1) * (x + 1)
  }

  /** The same for the square root. */
  ghost predicate SquareRootBits(x: nat, p: nat, k: nat) {
    x % 0x1_0000_0000 == k && x * x <= p * 0x1_00000000_00000000 < (x + 1) * (x + 1)
  }

  lemma Row0()
    ensures CubeRootBits(0x1_428a2f98, 2, 0x428a2f98)
    ensures CubeRootBits(0x1_71374491, 3, 0x71374491)
    ensures CubeRootBits(0x1_b5c0fbcf, 5, 0xb5c0fbcf)
    ensures CubeRootBits(0x1_e9b5dba5, 7, 0xe9b5dba5)
    ensures CubeRootBits(0x2_3956c25b, 11, 0x3956c25b)
    ensures CubeRootBits(0x2_59f111f1, 13, 0x59f111f1)
    ensures CubeRootBits(0x2_923f82a4, 17, 0x923f82a4)
    ensures CubeRootBits(0x2_ab1c5ed5, 19, 0xab1c5ed5)
  {
  }

  lemma Row1()
    ensures CubeRootBits(0x2_d807aa98, 23, 0xd807aa98)
    ensures CubeRootBits(0x3_12835b01, 29, 0x12835b01)
    ensures CubeRootBits(0x3_243185be, 31, 0x243185be)
    ensures CubeRootBits(0x3_550c7dc3, 37, 0x550c7dc3)
    ensures CubeRootBits(0x3_72be5d74, 41, 0x72be5d74)
    ensures CubeRootBits(0x3_80deb1fe, 43, 0x80deb1fe)
    ensures CubeRootBits(0x3_9bdc06a7, 47, 0x9bdc06a7)
    ensures CubeRootBits(0x3_c19bf174, 53, 0xc19bf174)
  {
  }

  lemma Row2()
    ensures CubeRootBits(0x3_e49b69c1, 59, 0xe49b69c1)
    ensures CubeRootBits(0x3_efbe4786, 61, 0xefbe4786)
    ensures CubeRootBits(0x4_0fc19dc6, 67, 0x0fc19dc6)
    ensures CubeRootBits(0x4_240ca1cc, 71, 0x240ca1cc)
    ensures CubeRootBits(0x4_2de92c6f, 73, 0x2de92c6f)
    ensures CubeRootBits(0x4_4a7484aa, 79, 0x4a7484aa)
    ensures CubeRootBits(0x4_5cb0a9dc, 83, 0x5cb0a9dc)
    ensures CubeRootBits(0x4_76f988da, 89, 0x76f988da)
  {
  }

  lemma Row3()
    ensures CubeRootBits(0x4_983e5152, 97, 0x983e5152)
    ensures CubeRootBits(0x4_a831c66d, 101, 0xa831c66d)
    ensures CubeRootBits(0x4_b00327c8, 103, 0xb00327c8)
    ensures CubeRootBits(0x4_bf597fc7, 107, 0xbf597fc7)
    ensures CubeRootBits(0x4_c6e00bf3, 109, 0xc6e00bf3)
    ensures CubeRootBits(0x4_d5a79147, 113, 0xd5a79147)
    ensures CubeRootBits(0x5_06ca6351, 127, 0x06ca6351)
    ensures CubeRootBits(0x5_14292967, 131, 0x14292967)
  {
  }

  lemma Row4()
    ensures CubeRootBits(0x5_27b70a85, 137, 0x27b70a85)
    ensures CubeRootBits(0x5_2e1b2138, 139, 0x2e1b2138)
    ensures CubeRootBits(0x5_4d2c6dfc, 149, 0x4d2c6dfc)
    ensures CubeRootBits(0x5_53380d13, 151, 0x53380d13)
    ensures CubeRootBits(0x5_650a7354, 157, 0x650a7354)
    ensures CubeRootBits(0x5_766a0abb, 163, 0x766a0abb)
    ensures CubeRootBits(0x5_81c2c92e, 167, 0x81c2c92e)
    ensures CubeRootBits(0x5_92722c85, 173, 0x92722c85)
  {
  }

  lemma Row5()
    ensures CubeRootBits(0x5_a2bfe8a1, 179, 0xa2bfe8a1)
    ensures CubeRootBits(0x5_a81a664b, 181, 0xa81a664b)
    ensures CubeRootBits(0x5_c24b8b70, 191, 0xc24b8b70)
    ensures CubeRootBits(0x5_c76c51a3, 193, 0xc76c51a3)
    ensures CubeRootBits(0x5_d192e819, 197, 0xd192e819)
    ensures CubeRootBits(0x5_d6990624, 199, 0xd6990624)
    ensures CubeRootBits(0x5_f40e3585, 211, 0xf40e3585)
    ensures CubeRootBits(0x6_106aa070, 223, 0x106aa070)
  {
  }

  lemma Row6()
    ensures CubeRootBits(0x6_19a4c116, 227, 0x19a4c116)
    ensures CubeRootBits(0x6_1e376c08, 229, 0x1e376c08)
    ensures CubeRootBits(0x6_2748774c, 233, 0x2748774c)
    ensures CubeRootBits(0x6_34b0bcb5, 239, 0x34b0bcb5)
    ensures CubeRootBits(0x6_391c0cb3, 241, 0x391c0cb3)
    ensures CubeRootBits(0x6_4ed8aa4a, 251, 0x4ed8aa4a)
    ensures CubeRootBits(0x6_5b9cca4f, 257, 0x5b9cca4f)
    ensures CubeRootBits(0x6_682e6ff3, 263, 0x682e6ff3)
  {
  }

  lemma Row7()
    ensures CubeRootBits(0x6_748f82ee, 269, 0x748f82ee)
    ensures CubeRootBits(0x6_78a5636f, 271, 0x78a5636f)
    ensures CubeRootBits(0x6_84c87814, 277, 0x84c87814)
    ensures CubeRootBits(0x6_8cc70208, 281, 0x8cc70208)
    ensures CubeRootBits(0x6_90befffa, 283, 0x90befffa)
    ensures CubeRootBits(0x6_a4506ceb, 293, 0xa4506ceb)
    ensures CubeRootBits(0x6_bef9a3f7, 307, 0xbef9a3f7)
    ensures CubeRootBits(0x6_c67178f2, 311, 0xc67178f2)
  {
  }

  /** The constants of the rounds are the cube roots of the first 64 primes. */
  lemma CubeRoots(t: nat) returns (x: nat)
    requires t < 64
    ensures CubeRootBits(x, Prime(t), Constant(t))
  {
    match t / 16
    case 0 => x := Roots0(t);
    case 1 => x := Roots1(t);
    case 2 => x := Roots2(t);
    case _ => x := Roots3(t);
  }

  lemma Roots0(t: nat) returns (x: nat)
    requires 0 <= t < 16
    ensures CubeRootBits(x, Prime(t), Constant(t))
  {
    hide CubeRootBits;
    var i := t % 8;
    match t / 8
    case 0 =>
      Row0();
      x := [0x1_428a2f98, 0x1_71374491, 0x1_b5c0fbcf, 0x1_e9b5dba5, 0x2_3956c25b, 0x2_59f111f1, 0x2_923f82a4, 0x2_ab1c5ed5][i];
    case _ =>
      Row1();
      x := [0x2_d807aa98, 0x3_12835b01, 0x3_243185be, 0x3_550c7dc3, 0x3_72be5d74, 0x3_80deb1fe, 0x3_9bdc06a7, 0x3_c19bf174][i];
  }

  lemma Roots1(t: nat) returns (x: nat)
    requires 16 <= t < 32
    ensures CubeRootBits(x, Prime(t), Constant(t))
  {
    hide CubeRootBits;
    var i := t % 8;
    match t / 8
    case 2 =>
      Row2();
      x := [0x3_e49b69c1, 0x3_efbe4786, 0x4_0fc19dc6, 0x4_240ca1cc, 0x4_2de92c6f, 0x4_4a7484aa, 0x4_5cb0a9dc, 0x4_76f988da][i];
    case _ =>
      Row3();
      x := [0x4_983e5152, 0x4_a831c66d, 0x4_b00327c8, 0x4_bf597fc7, 0x4_c6e00bf3, 0x4_d5a79147, 0x5_06ca6351, 0x5_14292967][i];
  }

  lemma Roots2(t: nat) returns (x: nat)
    requires 32 <= t < 48
    ensures CubeRootBits(x, Prime(t), Constant(t))
  {
    hide CubeRootBits;
    var i := t % 8;
    match t / 8
    case 4 =>
      Row4();
      x := [0x5_27b70a85, 0x5_2e1b2138, 0x5_4d2c6dfc, 0x5_53380d13, 0x5_650a7354, 0x5_766a0abb, 0x5_81c2c92e, 0x5_92722c85][i];
    case _ =>
      Row5();
      x := [0x5_a2bfe8a1, 0x5_a81a664b, 0x5_c24b8b70, 0x5_c76c51a3, 0x5_d192e819, 0x5_d6990624, 0x5_f40e3585, 0x6_106aa070][i];
  }

  lemma Roots3(t: nat) returns (x: nat)
    requires 48 <= t < 64
    ensures CubeRootBits(x, Prime(t), Constant(t))
  {
    hide CubeRootBits;
    var i := t % 8;
    match t / 8
    case 6 =>
      Row6();
      x := [0x6_19a4c116, 0x6_1e376c08, 0x6_2748774c, 0x6_34b0bcb5, 0x6_391c0cb3, 0x6_4ed8aa4a, 0x6_5b9cca4f, 0x6_682e6ff3][i];
    case _ =>
      Row7();
      x := [0x6_748f82ee, 0x6_78a5636f, 0x6_84c87814, 0x6_8cc70208, 0x6_90befffa, 0x6_a4506ceb, 0x6_bef9a3f7, 0x6_c67178f2][i];
  }

  /** The first hash value is the square roots of the first eight. */
  lemma SquareRoots(i: nat) returns (x: nat)
    requires i < 8
    ensures SquareRootBits(x, Prime(i), InitialState()[i])
  {
    hide SquareRootBits;
    RowOfSquares();
    x := [0x1_6a09e667, 0x1_bb67ae85, 0x2_3c6ef372, 0x2_a54ff53a, 0x3_510e527f, 0x3_9b05688c, 0x4_1f83d9ab, 0x4_5be0cd19][i];
  }

  lemma RowOfSquares()
    ensures SquareRootBits(0x1_6a09e667, 2, 0x6a09e667)
    ensures SquareRootBits(0x1_bb67ae85, 3, 0xbb67ae85)
    ensures SquareRootBits(0x2_3c6ef372, 5, 0x3c6ef372)
    ensures SquareRootBits(0x2_a54ff53a, 7, 0xa54ff53a)
    ensures SquareRootBits(0x3_510e527f, 11, 0x510e527f)
    ensures SquareRootBits(0x3_9b05688c, 13, 0x9b05688c)
    ensures SquareRootBits(0x4_1f83d9ab, 17, 0x1f83d9ab)
    ensures SquareRootBits(0x4_5be0cd19, 19, 0x5be0cd19)
  {
  }
}
