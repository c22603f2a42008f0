/** Poly1305: the incremental interface computes the polynomial of section 2.5 of RFC 8439. */
module Poly1305 {
  import opened Arith
  import opened Limbs
  import opened Bytes
  import opened Chunks
  import opened Poly1305Field

  // The definition

  /** The value of the polynomial over the blocks of a message: each block, with a one after its last byte, is added and
      the sum multiplied by r. */
  function Absorb(r: nat, m: seq<u8>): nat
    decreases |m|
  {
    if m == [] then 0
    else
      var k := (|m| - 1) / 16 * 16;
      ((Absorb(r, m[..k]) + Num(m[k..] + [1], |m| - k + 1)) * r) % P130()
  }

  /** The multiplier in a key, with 22 of its bits cleared. */
  function Clamp(i: nat, w: u32): (r: u32)
    ensures r <= 0x0fff_ffff && (i > 0 ==> r % 4 == 0)
  {
    if i == 0 then w % 0x1000_0000 else w % 0x1000_0000 - w % 4
  }

  function Multiplier(key: seq<u8>): nat
    requires |key| == 32
  {
    V(Clamp(0, Load32(key, 0)), Clamp(1, Load32(key, 4)), Clamp(2, Load32(key, 8)), Clamp(3, Load32(key, 12)), 0)
  }

  /** The tag of a message under a key. */
  function Tag(key: seq<u8>, m: seq<u8>): nat
    requires |key| == 32
  {
    (Absorb(Multiplier(key), m) + Num(key[16..], 16)) % Pw(4)
  }

  lemma AbsorbNext(r: nat, m: seq<u8>, b: seq<u8>)
    requires |m| % 16 == 0 && 0 < |b| <= 16
    ensures Absorb(r, m + b) == ((Absorb(r, m) + Num(b + [1], |b| + 1)) * r) % P130()
  {
    var k := (|m + b| - 1) / 16 * 16;
    assert k == |m|;
    assert (m + b)[..k] == m && (m + b)[k..] == b;
    hide Num, P130;
  }

  // One block

  /** s0 * a0 + ... is far from the 64-bit limit. */
  lemma NoOverflow(s0: nat, s1: nat, s2: nat, s3: nat, s4: nat, a0: nat, a1: nat, a2: nat, a3: nat, a4: nat, m: nat)
    requires s0 <= 0x1_ffff_fffe && s1 <= 0x1_ffff_fffe && s2 <= 0x1_ffff_fffe && s3 <= 0x1_ffff_fffe && s4 <= 5
    requires a0 <= m && a1 <= m && a2 <= m && a3 <= m && a4 <= 0x1400_0000
    ensures 0 <= s0 * a0 + s1 * a1 + s2 * a2 + s3 * a3 + s4 * a4 <= 4 * (0x1_ffff_fffe * m) + 5 * 0x1400_0000
  {
    MulBound(s0, a0, 0x1_ffff_fffe, m);
    MulBound(s1, a1, 0x1_ffff_fffe, m);
    MulBound(s2, a2, 0x1_ffff_fffe, m);
    MulBound(s3, a3, 0x1_ffff_fffe, m);
    MulBound(s4, a4, 5, 0x1400_0000);
  }

  /** (h + c + 2^128 end) * r for one block c, with every word and product within its width. */
  method MultiplyBlock(h: seq<u32>, c: seq<u32>, r: seq<u32>, end: u32) returns (h': seq<u32>)
    requires |h| == 5 && |c| == |r| == 4 && h[4] <= 4 && end <= 1
    requires forall i :: 0 <= i < 4 ==> r[i] <= 0x0fff_ffff && (i > 0 ==> r[i] % 4 == 0)
    ensures |h'| == 5 && h'[4] <= 4
    ensures Cong(V(h'[0], h'[1], h'[2], h'[3], h'[4]),
                 (V(h[0], h[1], h[2], h[3], h[4]) + V(c[0], c[1], c[2], c[3], end)) * V(r[0], r[1], r[2], r[3], 0), P130())
  {
    hide V, P130, Cong, Prepared;
    var r0, r1, r2, r3 := r[0], r[1], r[2], r[3];
    var rr0: u32 := (r0 / 4) * 5;
    var rr1: u32 := r1 / 4 + r1;
    var rr2: u32 := r2 / 4 + r2;
    var rr3: u32 := r3 / 4 + r3;
    var rr4: u32 := r0 % 4;
    Prepare(r0, r1, r2, r3);
    var s0: u64 := h[0] as int + c[0] as int;
    var s1: u64 := h[1] as int + c[1] as int;
    var s2: u64 := h[2] as int + c[2] as int;
    var s3: u64 := h[3] as int + c[3] as int;
    var s4: u32 := h[4] + end;
    VAdd(h[0], h[1], h[2], h[3], h[4], c[0], c[1], c[2], c[3], end);
    Product(s0, s1, s2, s3, s4, r0, r1, r2, r3, rr0, rr1, rr2, rr3, rr4);
    var u0, u1, u2, u3, u5 := Partial(s0, s1, s2, s3, s4, r0, r1, r2, r3, rr0, rr1, rr2, rr3, rr4,
                                      V(s0, s1, s2, s3, s4) * V(r0, r1, r2, r3, 0));
    h' := [u0 % BASE, u1 % BASE, u2 % BASE, u3 % BASE, u3 / BASE + u5 % 4];
  }

  /** The products and the partial reduction. */
  method Partial(s0: u64, s1: u64, s2: u64, s3: u64, s4: u32, r0: u32, r1: u32, r2: u32, r3: u32,
                 rr0: u32, rr1: u32, rr2: u32, rr3: u32, rr4: u32, ghost product: int)
    returns (u0: u64, u1: u64, u2: u64, u3: u64, u5: u32)
    requires s0 <= 0x1_ffff_fffe && s1 <= 0x1_ffff_fffe && s2 <= 0x1_ffff_fffe && s3 <= 0x1_ffff_fffe && s4 <= 5
    requires r0 <= 0x0fff_ffff && r1 <= 0x0fff_ffff && r2 <= 0x0fff_ffff && r3 <= 0x0fff_ffff && rr4 <= 3
    requires rr0 <= 0x1400_0000 && rr1 <= 0x1400_0000 && rr2 <= 0x1400_0000 && rr3 <= 0x1400_0000
    requires Cong(product,
                 V(s0 * r0 + s1 * rr3 + s2 * rr2 + s3 * rr1 + s4 * rr0, s0 * r1 + s1 * r0 + s2 * rr3 + s3 * rr2 + s4 * rr1,
                   s0 * r2 + s1 * r1 + s2 * r0 + s3 * rr3 + s4 * rr2, s0 * r3 + s1 * r2 + s2 * r1 + s3 * r0 + s4 * rr3,
                   s4 * rr4), P130())
    ensures u3 / BASE + u5 % 4 <= 4
    ensures Cong(V(u0 % BASE, u1 % BASE, u2 % BASE, u3 % BASE, u3 / BASE + u5 % 4), product, P130())
  {
    hide V, P130, Cong;
    NoOverflow(s0, s1, s2, s3, s4, r0, rr3, rr2, rr1, rr0, 0x1400_0000);
    NoOverflow(s0, s1, s2, s3, s4, r1, r0, rr3, rr2, rr1, 0x1400_0000);
    NoOverflow(s0, s1, s2, s3, s4, r2, r1, r0, rr3, rr2, 0x1400_0000);
    NoOverflow(s0, s1, s2, s3, s4, r3, r2, r1, r0, rr3, 0x0fff_ffff);
    MulBound(s4, rr4, 5, 3);
    MulBound(s4, rr0, 5, 0x1400_0000);
    MulBound(s4, rr1, 5, 0x1400_0000);
    MulBound(s4, rr2, 5, 0x1400_0000);
    MulBound(s4, rr3, 5, 0x1400_0000);
    var y0: u32 := s4 * rr0;
    var y1: u32 := s4 * rr1;
    var y2: u32 := s4 * rr2;
    var y3: u32 := s4 * rr3;
    var x0: u64 := s0 * r0 + s1 * rr3 + s2 * rr2 + s3 * rr1 + y0 as int;
    var x1: u64 := s0 * r1 + s1 * r0 + s2 * rr3 + s3 * rr2 + y1 as int;
    var x2: u64 := s0 * r2 + s1 * r1 + s2 * r0 + s3 * rr3 + y2 as int;
    var x3: u64 := s0 * r3 + s1 * r2 + s2 * r1 + s3 * r0 + y3 as int;
    var x4: u32 := s4 * rr4;
    u0, u1, u2, u3, u5 := Carries(x0, x1, x2, x3, x4);
    Reduce(x0, x1, x2, x3, x4, u0, u1, u2, u3, u5);
    CongTrans(product, V(x0, x1, x2, x3, x4), V(u0 % BASE, u1 % BASE, u2 % BASE, u3 % BASE, u3 / BASE + u5 % 4), P130());
    CongFlip(product, V(u0 % BASE, u1 % BASE, u2 % BASE, u3 % BASE, u3 / BASE + u5 % 4));
  }

  lemma CongFlip(a: int, b: int)
    requires Cong(a, b, P130())
    ensures Cong(b, a, P130())
  {
  }

  method Carries(x0: u64, x1: u64, x2: u64, x3: u64, x4: u32) returns (u0: u64, u1: u64, u2: u64, u3: u64, u5: u32)
    requires x3 < 0x8000_0000_0000_0000 && x4 <= 15
    ensures u5 == x4 + x3 / BASE && u0 == (u5 / 4) * 5 + x0 % BASE
    ensures u1 == u0 / BASE + x1 % BASE + x0 / BASE && u2 == u1 / BASE + x2 % BASE + x1 / BASE
    ensures u3 == u2 / BASE + x3 % BASE + x2 / BASE && u3 / BASE <= 1
  {
    u5 := x4 + x3 / BASE;
    var five: u32 := (u5 / 4) * 5;
    u0 := five + x0 % BASE;
    u1 := u0 / BASE + x1 % BASE + x0 / BASE;
    u2 := u1 / BASE + x2 % BASE + x1 / BASE;
    u3 := u2 / BASE + x3 % BASE + x2 / BASE;
  }

  /** The four words of a block, with the bit that marks its end, are its number. */
  lemma BlockValue(b: seq<u8>, end: u32)
    requires |b| == 16
    ensures V(Load32(b, 0), Load32(b, 4), Load32(b, 8), Load32(b, 12), end) == Num(b, 16) + end * Pw(4)
  {
    hide Load32, Num, V, Pw;
    var w := Words(b, 4);
    NumIsVal(b, w, 4);
    FourDigits(w, end);
  }

  lemma FourDigits(w: seq<u32>, end: u32)
    requires |w| >= 4
    ensures V(w[0], w[1], w[2], w[3], end) == Val(w, 4) + end * Pw(4)
  {
    hide Pw;
    assert Pw(0) == 1 by { OneWeight(); }
    assert Val(w, 1) == w[0];
    assert Val(w, 2) == Val(w, 1) + Pw(1) * w[1];
    assert Val(w, 3) == Val(w, 2) + Pw(2) * w[2];
    assert Val(w, 4) == Val(w, 3) + Pw(3) * w[3];
  }

  lemma OneWeight()
    ensures Pw(0) == 1
  {
  }

  /** Blocks absorbed without the final remainder. */
  lemma AbsorbCong(r: nat, m: seq<u8>, b: seq<u8>, h: int, h': int, v: int)
    requires |m| % 16 == 0 && 0 < |b| <= 16 && v == Num(b + [1], |b| + 1)
    requires Cong(h, Absorb(r, m), P130()) && Cong(h', (h + v) * r, P130())
    ensures Cong(h', Absorb(r, m + b), P130())
  {
    hide *;
    AbsorbNext(r, m, b);
    var p, a := P130(), Absorb(r, m);
    CongRefl(v, p);
    CongRefl(r, p);
    CongAdd(h, a, v, v, p);
    CongMul(h + v, a + v, r, r, p);
    CongMod((a + v) * r, p);
    CongTrans(h', (h + v) * r, (a + v) * r, p);
    CongTrans(h', (a + v) * r, ((a + v) * r) % p, p);
  }

  /** A full block carries its mark above its sixteen bytes; a short one is padded with a one and zeros. */
  lemma {:induction false} Padded(t: seq<u8>, c: seq<u8>)
    requires |c| == 16 && |t| < 16 && c[..|t|] == t && c[|t|] == 1 && forall i :: |t| < i < 16 ==> c[i] == 0
    ensures Num(c, 16) == Num(t + [1], |t| + 1)
  {
    NumAgree(c, t + [1], |t| + 1);
    ZerosAbove(c, |t| + 1, 16);
  }

  lemma {:induction false} ZerosAbove(c: seq<u8>, k: nat, n: nat)
    requires k <= n <= |c| && forall i :: k <= i < n ==> c[i] == 0
    ensures Num(c, n) == Num(c, k)
    decreases n
  {
    if n == k {
    } else {
      ZerosAbove(c, k, n - 1);
    }
  }

  lemma Marked(b: seq<u8>)
    requires |b| == 16
    ensures Num(b + [1], 17) == Num(b, 16) + 1 * Pw(4)
  {
    hide Pw, Pw8;
    PwPw8(4);
    NumAgree(b + [1], b, 16);
  }

  /** h after n blocks of m, each with its end mark above it: h = (h + block) * r again and again. */
  function Chain(h: int, r: int, m: seq<u8>, n: nat, end: u32): int
    requires 16 * n <= |m|
  {
    if n == 0 then h else (Chain(h, r, m, n - 1, end) + (Num(m[16 * (n - 1)..16 * n], 16) + end * Pw(4))) * r
  }

  lemma ChainNext(h: int, r: int, m: seq<u8>, n: nat, end: u32)
    requires 16 * (n + 1) <= |m|
    ensures Chain(h, r, m, 0, end) == h
    ensures Chain(h, r, m, n + 1, end) == (Chain(h, r, m, n, end) + (Num(m[16 * n..16 * (n + 1)], 16) + end * Pw(4))) * r
  {
    hide Num, Pw;
  }

  lemma StepCong(h: int, a: int, v: int, r: int, h': int, p: int)
    requires 0 < p && Cong(h, a, p) && Cong(h', (h + v) * r, p)
    ensures Cong(h', (a + v) * r, p)
  {
    hide *;
    CongRefl(v, p);
    CongRefl(r, p);
    CongAdd(h, a, v, v, p);
    CongMul(h + v, a + v, r, r, p);
    CongTrans(h', (h + v) * r, (a + v) * r, p);
  }

  /** Marked blocks are absorbed as those of a message. */
  lemma {:induction false} MarkedChain(r: nat, m0: seq<u8>, h: int, b: seq<u8>, n: nat)
    requires |m0| % 16 == 0 && 16 * n <= |b| && Cong(h, Absorb(r, m0), P130())
    ensures Cong(Chain(h, r, b, n, 1), Absorb(r, m0 + b[..16 * n]), P130())
  {
    hide *;
    if n == 0 {
      NoChain(h, r, b);
      assert m0 + b[..0] == m0;
    } else {
      MarkedChain(r, m0, h, b, n - 1);
      ChainNext(h, r, b, n - 1, 1);
      var block := b[16 * (n - 1)..16 * n];
      Marked(block);
      var x, y := Chain(h, r, b, n - 1, 1), Chain(h, r, b, n, 1);
      CongRefl(y, P130());
      AbsorbCong(r, m0 + b[..16 * (n - 1)], block, x, y, Num(block, 16) + 1 * Pw(4));
      assert m0 + b[..16 * (n - 1)] + block == m0 + b[..16 * n];
    }
  }

  lemma NoChain(h: int, r: int, m: seq<u8>)
    ensures Chain(h, r, m, 0, 1) == h
  {
  }

  /** A last block that holds its own mark. */
  lemma UnmarkedBlock(h: int, r: int, b: seq<u8>)
    requires |b| == 16
    ensures Chain(h, r, b, 1, 0) == (h + Num(b, 16)) * r
  {
    assert b[0..16] == b;
    assert Chain(h, r, b, 0, 0) == h;
    hide Num, Pw;
  }

  /** The incremental interface. */
  class Context {
    const c: array<u8>
    const h: array<u32>
    var cIdx: nat
    var r: seq<u32>
    var pad: seq<u32>

    ghost predicate Shape()
      reads `r, `pad, h
    {
      && c.Length == 16 && h.Length == 5 && |r| == |pad| == 4 && h[4] <= 4
      && forall i :: 0 <= i < 4 ==> r[i] <= 0x0fff_ffff && (i > 0 ==> r[i] % 4 == 0)
    }

    ghost function Hash(): int
      requires h.Length == 5
      reads h
    {
      V(h[0], h[1], h[2], h[3], h[4])
    }

    ghost function R(): int
      requires |r| == 4
      reads `r
    {
      V(r[0], r[1], r[2], r[3], 0)
    }

    /** The blocks of m0 have been absorbed and the bytes of tail are waiting. */
    ghost predicate Pending(m0: seq<u8>, tail: seq<u8>)
      reads this, h, c
    {
      && Shape() && |m0| % 16 == 0 && cIdx == |tail| <= 16 && c[..cIdx] == tail
      && R() >= 0 && Cong(Hash(), Absorb(R(), m0), P130())
    }

    /** All of m has been taken in. */
    ghost predicate Holds(m: seq<u8>)
      reads this, h, c
    {
      Pending(m[..|m| / 16 * 16], m[|m| / 16 * 16..])
    }

    ghost predicate Keyed(key: seq<u8>)
      requires |key| == 32
      reads `r, `pad
    {
      && |r| == |pad| == 4 && (forall i :: 0 <= i < 4 ==> r[i] == Clamp(i, Load32(key, 4 * i)))
      && (forall i :: 0 <= i < 4 ==> pad[i] == Load32(key, 16 + 4 * i))
    }

    constructor (key: seq<u8>)
      requires |key| == 32
      ensures fresh(c) && fresh(h) && Keyed(key) && Holds([])
    {
      hide *;
      c := new u8[16](_ => 0);
      h := new u32[5](_ => 0);
      cIdx := 0;
      r := seq(4, i requires 0 <= i < 4 => Clamp(i, Load32(key, 4 * i)));
      pad := seq(4, i requires 0 <= i < 4 => Load32(key, 16 + 4 * i));
      new;
      Begun();
      KeyedBy(key);
    }

    lemma KeyedBy(key: seq<u8>)
      requires |key| == 32 && |r| == |pad| == 4 && (forall i :: 0 <= i < 4 ==> r[i] == Clamp(i, Load32(key, 4 * i)))
      requires forall i :: 0 <= i < 4 ==> pad[i] == Load32(key, 16 + 4 * i)
      ensures Keyed(key)
    {
    }

    /** Nothing has been taken in. */
    lemma Begun()
      requires c.Length == 16 && h.Length == 5 && |r| == |pad| == 4 && cIdx == 0
      requires forall i :: 0 <= i < 5 ==> h[i] == 0
      requires forall i :: 0 <= i < 4 ==> r[i] <= 0x0fff_ffff && (i > 0 ==> r[i] % 4 == 0)
      ensures Holds([])
    {
    }

    /** h = (h + block) * r for nb blocks of the input, from offset off on. */
    method PolyBlocks(input: seq<u8>, off: nat, nb: nat, end: u32)
      requires Shape() && off + 16 * nb <= |input| && end <= 1
      modifies h
      ensures Shape()
      ensures Cong(Hash(), Chain(old(Hash()), R(), input[off..off + 16 * nb], nb, end), P130())
    {
      hide *;
      ShapeFacts();
      ghost var b, h0 := input[off..off + 16 * nb], Hash();
      EmptyChain(h0, R(), b, end);
      CongRefl(h0, P130());
      var i := 0;
      while i < nb
        invariant 0 <= i <= nb && Shape() && h.Length == 5
        invariant Cong(Hash(), Chain(h0, R(), b, i, end), P130())
      {
        SliceOfSlice(input, off, 16 * nb, 16 * i, 16 * (i + 1));
        Block(input[off + 16 * i..off + 16 * (i + 1)], end, h0, b, i);
        i := i + 1;
      }
    }

    lemma EmptyChain(h0: int, r: int, b: seq<u8>, end: u32)
      ensures Chain(h0, r, b, 0, end) == h0
    {
    }

    /** Block i of the chain. */
    method Block(block: seq<u8>, end: u32, ghost h0: int, ghost b: seq<u8>, ghost i: nat)
      requires Shape() && end <= 1 && 16 * (i + 1) <= |b| && block == b[16 * i..16 * (i + 1)]
      requires Cong(Hash(), Chain(h0, R(), b, i, end), P130())
      modifies h
      ensures Shape() && Cong(Hash(), Chain(h0, R(), b, i + 1, end), P130())
    {
      hide V, Cong, P130, Num, Load32, Pw, Chain;
      ghost var before := Hash();
      var h' := MultiplyBlock(h[..], [Load32(block, 0), Load32(block, 4), Load32(block, 8), Load32(block, 12)], r, end);
      BlockValue(block, end);
      h[0], h[1], h[2], h[3], h[4] := h'[0], h'[1], h'[2], h'[3], h'[4];
      ChainNext(h0, R(), b, i, end);
      StepCong(before, Chain(h0, R(), b, i, end), Num(block, 16) + end * Pw(4), R(), Hash(), P130());
    }

    /** Takes in some bytes. */
    method Update(message: seq<u8>, ghost m: seq<u8>)
      requires Holds(m)
      modifies this`cIdx, c, h
      ensures Holds(m + message)
    {
      hide *;
      ghost var k := |m| / 16 * 16;
      ghost var m0, tail := m[..k], m[k..];
      Whole(m, m0, tail);
      if message == [] {
        assert m + message == m;
        return;
      }
      var aligned;
      aligned, m0, tail := Align(message, m0, tail);
      assert m0 + tail == m + message[..aligned] && message[..aligned] + message[aligned..] == message;
      var rest := message[aligned..];
      m0, tail := Blocks(rest, m0, tail);
      assert m + message[..aligned] + rest == m + message;
      Split(m + message, m0, tail);
    }

    /** Completes the block that waits, if the message reaches so far. */
    method Align(message: seq<u8>, ghost m0: seq<u8>, ghost tail: seq<u8>) returns (aligned: nat, ghost m0': seq<u8>, ghost tail': seq<u8>)
      requires Pending(m0, tail) && |tail| < 16
      modifies this`cIdx, c, h
      ensures aligned <= |message| && m0' + tail' == m0 + tail + message[..aligned]
      ensures Pending(m0', tail') && |tail'| < 16 && (aligned == |message| || tail' == [])
    {
      hide *;
      PendingFacts(m0, tail);
      GapFills(cIdx, |message|);
      aligned := if Gap(cIdx, 16) < |message| then Gap(cIdx, 16) else |message|;
      Buffer(message[..aligned], m0, tail);
      m0', tail' := m0, tail + message[..aligned];
      PendingFacts(m0', tail');
      if cIdx == 16 {
        assert c[..] == tail' == tail'[..16 * 1];
        AbsorbBlocks(c[..], 1, m0');
        cIdx := 0;
        Advanced(m0', tail', []);
        m0', tail' := m0' + tail', [];
      }
    }

    /** Absorbs the full blocks of what is left and keeps the rest. */
    method Blocks(rest: seq<u8>, ghost m0: seq<u8>, ghost tail: seq<u8>) returns (ghost m0': seq<u8>, ghost tail': seq<u8>)
      requires Pending(m0, tail) && |tail| < 16 && (rest == [] || tail == [])
      modifies this`cIdx, c, h
      ensures m0' + tail' == m0 + tail + rest && Pending(m0', tail') && |tail'| < 16
    {
      hide *;
      PendingFacts(m0, tail);
      var nbBlocks := |rest| / 16;
      Remainder(|rest|);
      ghost var b := rest[..16 * nbBlocks];
      AbsorbBlocks(rest, nbBlocks, m0);
      m0' := m0 + b;
      Advanced(m0, b, tail);
      Buffer(rest[16 * nbBlocks..], m0', tail);
      tail' := tail + rest[16 * nbBlocks..];
      Apart(m0, tail, b, rest[16 * nbBlocks..], rest);
    }

    lemma Apart(m0: seq<u8>, tail: seq<u8>, b: seq<u8>, e: seq<u8>, rest: seq<u8>)
      requires rest == b + e && (rest == [] || tail == [])
      ensures (m0 + b) + (tail + e) == m0 + tail + rest
    {
    }

    /** Blocks of an input join the message absorbed. */
    method AbsorbBlocks(input: seq<u8>, nb: nat, ghost m0: seq<u8>)
      requires Shape() && h.Length == 5 && |r| == 4 && 16 * nb <= |input| && R() >= 0
      requires |m0| % 16 == 0 && Cong(Hash(), Absorb(R(), m0), P130())
      modifies h
      ensures Shape() && |m0 + input[..16 * nb]| % 16 == 0 && Cong(Hash(), Absorb(R(), m0 + input[..16 * nb]), P130())
    {
      hide *;
      ghost var before, b := Hash(), input[0..0 + 16 * nb];
      PolyBlocks(input, 0, nb, 1);
      assert b == input[..16 * nb] == b[..16 * nb];
      MarkedChain(R(), m0, before, b, nb);
      CongTrans(Hash(), Chain(before, R(), b, nb, 1), Absorb(R(), m0 + b), P130());
    }

    /** Blocks have been absorbed while nothing, or nothing but the tail, waits. */
    lemma Advanced(m0: seq<u8>, b: seq<u8>, tail: seq<u8>)
      requires Shape() && |m0| % 16 == 0 && |b| % 16 == 0 && cIdx == |tail| <= 16 && c[..cIdx] == tail && R() >= 0
      requires Cong(Hash(), Absorb(R(), m0 + b), P130())
      ensures Pending(m0 + b, tail)
    {
      hide Absorb, V, Cong;
    }

    lemma Whole(m: seq<u8>, m0: seq<u8>, tail: seq<u8>)
      requires Holds(m) && m0 == m[..|m| / 16 * 16] && tail == m[|m| / 16 * 16..]
      ensures Pending(m0, tail) && m0 + tail == m && |tail| < 16
    {
    }

    lemma Split(m: seq<u8>, m0: seq<u8>, tail: seq<u8>)
      requires Pending(m0, tail) && |tail| < 16 && m0 + tail == m
      ensures Holds(m)
    {
      hide Pending;
      PendingFacts(m0, tail);
      SplitAt(m, m0, tail);
    }

    lemma PendingFacts(m0: seq<u8>, tail: seq<u8>)
      requires Pending(m0, tail)
      ensures Shape() && c.Length == 16 && h.Length == 5 && |r| == 4 && cIdx == |tail| <= 16 && c[..cIdx] == tail
      ensures |m0| % 16 == 0 && R() >= 0 && Cong(Hash(), Absorb(R(), m0), P130())
    {
    }

    lemma KeyedFacts(key: seq<u8>)
      requires |key| == 32 && Keyed(key)
      ensures |r| == |pad| == 4 && R() == Multiplier(key) && Val(pad, 4) == Num(key[16..], 16)
    {
      hide V, Clamp, Num, Val;
      assert forall i :: 0 <= i < 4 ==> Load32(key[16..], 4 * i) == Load32(key, 16 + 4 * i);
      hide Load32;
      NumIsVal(key[16..], pad, 4);
      assert Load32(key, 4 * 0) == Load32(key, 0);
    }

    /** Copies bytes behind those that wait. */
    method Buffer(b: seq<u8>, ghost m0: seq<u8>, ghost tail: seq<u8>)
      requires Pending(m0, tail) && |tail| + |b| <= 16
      modifies this`cIdx, c
      ensures Pending(m0, tail + b)
    {
      hide Absorb, V, Cong;
      for i := 0 to |b|
        invariant Pending(m0, tail + b[..i])
      {
        c[cIdx] := b[i];
        cIdx := cIdx + 1;
        assert tail + b[..i + 1] == tail + b[..i] + [b[i]];
      }
      assert b[..|b|] == b;
    }

    /** Pads and absorbs what still waits, and writes the tag. */
    method Final(mac: array<u8>, ghost key: seq<u8>, ghost m: seq<u8>)
      requires mac.Length == 16 && mac != c && |key| == 32 && Keyed(key) && Holds(m)
      modifies c, h, mac
      ensures Num(mac[..], 16) == Tag(key, m)
    {
      hide *;
      ghost var k := |m| / 16 * 16;
      ghost var m0, tail := m[..k], m[k..];
      Whole(m, m0, tail);
      PendingFacts(m0, tail);
      KeyedFacts(key);
      if cIdx != 0 {
        ghost var before := Hash();
        Pad();
        Padded(tail, c[..]);
        assert c[..][0..0 + 16 * 1] == c[..];
        PolyBlocks(c[..], 0, 1, 0);
        UnmarkedBlock(before, R(), c[..]);
        AbsorbCong(R(), m0, tail, before, Hash(), Num(c[..], 16));
      } else {
        assert m0 == m;
      }
      WriteTag(mac, m);
      TagIs(key, m);
    }

    /** Appends the padding. */
    method Pad()
      requires c.Length == 16 && 0 < cIdx < 16
      modifies c
      ensures c[..cIdx] == old(c[..cIdx]) && c[cIdx] == 1 && forall i :: cIdx < i < 16 ==> c[i] == 0
    {
      for i := cIdx to 16
        invariant c[..cIdx] == old(c[..cIdx]) && forall j :: cIdx <= j < i ==> c[j] == 0
      {
        c[i] := 0;
      }
      c[cIdx] := 1;
    }

    /** Reduces the hash, adds the pad, and writes the low 128 bits. */
    method WriteTag(mac: array<u8>, ghost m: seq<u8>)
      requires Shape() && mac.Length == 16 && R() >= 0 && Cong(Hash(), Absorb(R(), m), P130())
      modifies mac
      ensures Num(mac[..], 16) == (Absorb(R(), m) + Val(pad, 4)) % Pw(4)
    {
      hide *;
      ShapeFacts();
      var q := Quotient();
      ghost var c := WriteSum(mac, h[..], pad, q);
      HashIs();
      AbsorbBound(R(), m);
      Reduced(h[..], pad, q, Absorb(R(), m), Num(mac[..], 16), c);
    }

    lemma ShapeFacts()
      requires Shape()
      ensures c.Length == 16 && h.Length == 5 && |r| == |pad| == 4 && h[4] <= 4
    {
    }

    lemma HashIs()
      requires h.Length == 5
      ensures Hash() == V(h[0], h[1], h[2], h[3], h[4])
    {
    }

    /** How often 2^130 - 5 is to be subtracted: the carry out of h + 5 past 130 bits. */
    method Quotient() returns (q: u64)
      requires h.Length == 5 && h[4] <= 4
      ensures q <= 1 && q == ((Val(h[..], 4) + 5) / Pw(4) + h[4]) / 4
    {
      hide *;
      var c: u64 := 5;
      ghost var hs := h[..];
      CarryStart(hs);
      for i := 0 to 4
        invariant c <= 5 && c == (Val(hs, i) + 5) / Pw(i)
      {
        CarryNext(hs, i, c);
        c := c + h[i];
        c := c / 0x1_0000_0000;
      }
      CarryOut(hs, c);
      c := c + h[4];
      q := c / 4;
    }
  }

  /** Writes the words of h + 5 q + pad as they come. */
  method WriteSum(mac: array<u8>, h: seq<u32>, pad: seq<u32>, q: u64) returns (ghost carry: nat)
    requires mac.Length == 16 && |h| == 5 && |pad| == 4 && q <= 1
    modifies mac
    ensures Sums(q, Num(mac[..], 16), carry, h, pad, 4) && Num(mac[..], 16) < Pw8(16)
  {
    hide *;
    var c: u64 := q * 5;
    SumsStart(q, mac[..], h, pad);
    for i := 0 to 4
      invariant Sums(q, Num(mac[..], 4 * i), c, h, pad, i) && c <= 5
    {
      ghost var c0, before := c, mac[..];
      c := c + (h[i] as int + pad[i] as int);
      Store32(mac, 4 * i, c % 0x1_0000_0000);
      StoreNum(before, mac[..], i);
      SumsNext(q, Num(before, 4 * i), c0, h, pad, i);
      c := c / 0x1_0000_0000;
    }
    carry := c;
    NumBound(mac[..], 16);
  }

  lemma TagIs(key: seq<u8>, m: seq<u8>)
    requires |key| == 32
    ensures Tag(key, m) == (Absorb(Multiplier(key), m) + Num(key[16..], 16)) % Pw(4)
  {
  }

  lemma SplitAt(m: seq<u8>, m0: seq<u8>, tail: seq<u8>)
    requires |m0| % 16 == 0 && |tail| < 16 && m == m0 + tail
    ensures |m| / 16 * 16 == |m0| && m[..|m| / 16 * 16] == m0 && m[|m| / 16 * 16..] == tail
  {
  }

  lemma GapFills(c: nat, n: nat)
    requires c < 16
    ensures Gap(c, 16) == if c == 0 then 0 else 16 - c
  {
  }

  lemma Remainder(n: nat)
    ensures 16 * (n / 16) <= n && n - 16 * (n / 16) < 16
  {
  }

  lemma CarryStart(h: seq<u32>)
    ensures Val(h, 0) == 0 && Pw(0) == 1 && 5 / 1 == 5
  {
  }

  lemma CarryNext(h: seq<u32>, i: nat, c: nat)
    requires i < |h| && c == (Val(h, i) + 5) / Pw(i)
    ensures (c + h[i]) / 0x1_0000_0000 == (Val(h, i + 1) + 5) / Pw(i + 1)
  {
    var v, w, x := Val(h, i) + 5, Pw(i), h[i];
    assert Val(h, i + 1) + 5 == v + w * x && Pw(i + 1) == w * BASE by { assert Pw(i + 1) == BASE * w; }
    hide Val, Pw;
    DivModUnique(v + w * x, c + x, v % w, w) by { MulDistr(w, c, x); }
    DivDiv(v + w * x, w, BASE);
  }

  lemma CarryOut(h: seq<u32>, c: nat)
    requires |h| >= 4 && c == (Val(h, 4) + 5) / Pw(4)
    ensures c <= 1
  {
    ValBound(h, 4);
    var v, w := Val(h, 4) + 5, Pw(4);
    assert w >= 5 by { assert Pw(4) == BASE * Pw(3); MulLe(BASE, 1, Pw(3)); }
    hide Val, Pw;
    if c >= 2 {
      DivNat(v, w);
      MulLe(w, 2, c);
    }
  }

  /** The words written and the carry make up the sum so far. */
  ghost predicate Sums(q: nat, out: nat, c: nat, h: seq<u32>, pad: seq<u32>, i: nat) {
    i <= |h| && i <= |pad| && out + c * Pw(i) == 5 * q + Val(h, i) + Val(pad, i)
  }

  lemma SumsStart(q: nat, mac: seq<u8>, h: seq<u32>, pad: seq<u32>)
    ensures Sums(q, Num(mac, 0), q * 5, h, pad, 0)
  {
  }

  lemma SumsNext(q: nat, out: nat, c: nat, h: seq<u32>, pad: seq<u32>, i: nat)
    requires Sums(q, out, c, h, pad, i) && i < |h| && i < |pad| && c <= 5
    ensures var y := c + (h[i] as int + pad[i] as int);
            Sums(q, out + Pw(i) * (y % 0x1_0000_0000), y / 0x1_0000_0000, h, pad, i + 1) && y / 0x1_0000_0000 <= 5
  {
    hide *;
    var x, z := h[i] as int, pad[i] as int;
    var y := c + (x + z);
    SumsFacts(q, out, c, h, pad, i);
    Digits(y);
    SumColumn(Pw(i), c, x, z, y % 0x1_0000_0000, y / 0x1_0000_0000, out, q, Val(h, i), Val(pad, i), Val(h, i + 1), Val(pad, i + 1), Pw(i + 1));
    SumsIntro(q, out + Pw(i) * (y % 0x1_0000_0000), y / 0x1_0000_0000, h, pad, i + 1);
  }

  lemma SumsFacts(q: nat, out: nat, c: nat, h: seq<u32>, pad: seq<u32>, i: nat)
    requires Sums(q, out, c, h, pad, i) && i < |h| && i < |pad|
    ensures out + c * Pw(i) == 5 * q + Val(h, i) + Val(pad, i) && Pw(i + 1) == 0x1_0000_0000 * Pw(i)
    ensures Val(h, i + 1) == Val(h, i) + Pw(i) * h[i] && Val(pad, i + 1) == Val(pad, i) + Pw(i) * pad[i]
  {
  }

  lemma SumsIntro(q: nat, out: nat, c: nat, h: seq<u32>, pad: seq<u32>, i: nat)
    requires i <= |h| && i <= |pad| && out + c * Pw(i) == 5 * q + Val(h, i) + Val(pad, i)
    ensures Sums(q, out, c, h, pad, i)
  {
  }

  lemma Digits(y: nat)
    ensures y == y % 0x1_0000_0000 + 0x1_0000_0000 * (y / 0x1_0000_0000)
  {
  }

  lemma SumColumn(w: int, c: int, x: int, z: int, l: int, g: int, out: int, q: int, v: int, t: int, v': int, t': int, w': int)
    requires c + (x + z) == l + 0x1_0000_0000 * g && w' == 0x1_0000_0000 * w
    requires v' == v + w * x && t' == t + w * z && out + c * w == 5 * q + v + t
    ensures out + w * l + g * w' == 5 * q + v' + t'
  {
  }

  lemma AbsorbBound(r: nat, m: seq<u8>)
    ensures 0 <= Absorb(r, m) < P130()
  {
  }

  /** The conditional subtraction and the truncated sum give the tag. */
  lemma Reduced(h: seq<u32>, pad: seq<u32>, q: nat, a: nat, out: nat, c: nat)
    requires |h| == 5 && |pad| == 4 && h[4] <= 4 && q <= 1 && q == ((Val(h, 4) + 5) / Pw(4) + h[4]) / 4
    requires Cong(V(h[0], h[1], h[2], h[3], h[4]), a, P130()) && a < P130()
    requires Sums(q, out, c, h, pad, 4) && out < Pw8(16)
    ensures out == (a + Val(pad, 4)) % Pw(4)
  {
    hide *;
    PwPw8(4);
    FourDigits(h, h[4]);
    ValBound(h, 4);
    PrimeIs();
    SumsIs(q, out, c, h, pad);
    BaseIsLarge();
    var v, w, p, t, top := Val(h, 4), Pw(4), P130(), Val(pad, 4), h[4];
    Subtracted(v, w, p, q, top);
    CongSub(v + top * w, q, p);
    CongTrans(v + top * w - q * p, v + top * w, a, p);
    CongSmall(v + top * w - q * p, a, p);
    Truncated(out, c, v, t, w, q, p, top, a);
  }

  lemma SumsIs(q: nat, out: nat, c: nat, h: seq<u32>, pad: seq<u32>)
    requires Sums(q, out, c, h, pad, 4)
    ensures |h| >= 4 && |pad| >= 4 && out + c * Pw(4) == 5 * q + Val(h, 4) + Val(pad, 4)
  {
  }

  lemma BaseIsLarge()
    ensures Pw(4) >= 5
  {
  }

  lemma CongSub(x: int, q: int, p: nat)
    requires 0 < p
    ensures Cong(x - q * p, x, p)
  {
    CongIntro(x - q * p, x, -q, p);
  }

  lemma Subtracted(v: nat, w: nat, p: nat, q: nat, top: nat)
    requires 4 * w == p + 5 && v < w && top <= 4 && q <= 1 && w >= 5 && q == ((v + 5) / w + top) / 4
    ensures 0 <= v + top * w - q * p < p
  {
    var e := (v + 5) / w;
    assert v + 5 == w * e + (v + 5) % w;
    assert e <= 1 by { if e >= 2 { MulLe(w, 2, e); } }
    assert e >= 0 by { if e < 0 { MulLe(w, e, -1); } }
    if e == 0 { assert w * e == 0; } else { assert w * e == w; }
    if top == 0 {} else if top == 1 {} else if top == 2 {} else if top == 3 {} else {}
  }

  lemma Truncated(out: nat, c: nat, v: nat, t: nat, w: nat, q: nat, p: nat, top: nat, a: nat)
    requires out + c * w == 5 * q + v + t && out < w && 4 * w == p + 5 && a == v + top * w - q * p
    ensures out == (a + t) % w
  {
    assert q * p == q * (4 * w) - 5 * q;
    assert a + t == (c + top - 4 * q) * w + out;
    DivModUnique(a + t, c + top - 4 * q, out, w);
  }

  /** However a message is split, the tag is that of the whole message. */
  method Authenticate(mac: array<u8>, chunks: seq<seq<u8>>, key: seq<u8>)
    requires mac.Length == 16 && |key| == 32
    modifies mac
    ensures Num(mac[..], 16) == Tag(key, Flatten(chunks))
  {
    hide *;
    var ctx := new Context(key);
    NothingYet(chunks);
    for i := 0 to |chunks|
      invariant ctx.Keyed(key) && ctx.Holds(Flatten(chunks[..i]))
    {
      FlattenNext(chunks, i);
      ctx.Update(chunks[i], Flatten(chunks[..i]));
    }
    assert chunks[..|chunks|] == chunks;
    ctx.Final(mac, key, Flatten(chunks));
  }
}
