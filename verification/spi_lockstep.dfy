/** Master and flash stay in lockstep, and what the master emits is what the flash holds. */
module SpiLockstep {
  import opened Arith
  import opened Bits
  import opened Limbs
  import opened ScalarBits
  import opened SpiHardware

  // What a transfer should deliver

  /** Byte k of the transfer from address a. */
  function FlashByte(flash: seq<u8>, a: nat, k: nat): u8
    requires flash != []
  {
    flash[(a + k) % |flash|]
  }

  /** The first n bytes of word i, least significant first. */
  function Word(flash: seq<u8>, a: nat, i: nat, n: nat): nat
    requires flash != []
  {
    if n == 0 then 0 else Word(flash, a, i, n - 1) + FlashByte(flash, a, 4 * i + n - 1) * Pow2(8 * (n - 1))
  }

  lemma {:induction false} WordBound(flash: seq<u8>, a: nat, i: nat, n: nat)
    requires flash != []
    ensures Word(flash, a, i, n) < Pow2(8 * n)
  {
    if n == 0 {
    } else {
      WordBound(flash, a, i, n - 1);
      Pow2Add(8, 8 * (n - 1));
      assert Pow2(8) == 0x100;
      var p, b := Pow2(8 * (n - 1)), FlashByte(flash, a, 4 * i + n - 1);
      hide *;
      MulLe(p, b, 0xFF);
    }
  }

  function Packed(flash: seq<u8>, a: nat, n: nat): (w: seq<nat>)
    requires flash != []
    ensures |w| == n
  {
    seq(n, (i: nat) => Word(flash, a, i, 4))
  }

  /** The words that a transfer of n bytes consists of: all full but the last. */
  function Words(flash: seq<u8>, a: nat, n: nat): (w: seq<nat>)
    requires flash != []
    ensures |w| == (n + 3) / 4
  {
    Packed(flash, a, n / 4) + if n % 4 == 0 then [] else [Word(flash, a, n / 4, n % 4)]
  }

  // The invariant

  /** A transfer under way: bits counts the clock pulses sent in the command phase, then the bits received. */
  datatype Transfer = Transfer(address: nat, length: nat, bits: nat)

  function Message(x: Transfer): nat {
    0x0300_0000 + x.address
  }

  /** The flash has sampled the first j bits of the message. */
  predicate Sampled(s: SlaveRegs, flash: seq<u8>, x: Transfer, j: nat)
    requires x.address < |flash| <= 0x100_0000 && j <= 32
  {
    if j < 8 then
      && s.state == SCommand && s.commandReg == Shr(Message(x), 32 - j) && s.commandBits == j
      && s.addressReg == 0 && s.addressBits == 0
    else if j < 32 then
      s.state == SAddress && s.addressReg == Shr(x.address, 32 - j) && s.addressBits == j - 8
    else Serving(s, flash, x, 0)
  }

  /** The flash has advanced f times: it drives bit f - 1 of the transfer. */
  predicate Serving(s: SlaveRegs, flash: seq<u8>, x: Transfer, f: nat)
    requires x.address < |flash| <= 0x100_0000
  {
    && s.state == SData
    && if f == 0 then
         !s.outputLoaded && s.outputBits == 0 && s.addressReg == x.address && s.outputReg == FlashByte(flash, x.address, 0)
       else
         && s.outputLoaded && s.outputBits == (f - 1) % 8 && s.addressReg == (x.address + (f - 1) / 8) % |flash|
         && s.outputReg == (FlashByte(flash, x.address, (f - 1) / 8) * Pow2((f - 1) % 8)) % 0x100
         && s.misoReg == (DataBit(flash, x, f - 1) == 1)
  }

  /** Bit b of the transfer, most significant bit of each byte first. */
  function DataBit(flash: seq<u8>, x: Transfer, b: nat): nat
    requires flash != []
  {
    Bit(FlashByte(flash, x.address, b / 8), 7 - b % 8)
  }

  /** The flash is exactly as far as the master has clocked it. */
  predicate Locked(m: MasterRegs, s: SlaveRegs, flash: seq<u8>, x: Transfer)
    requires x.address < |flash| <= 0x100_0000
  {
    && !m.cs && !(m.sclk && s.sclkPrev)
    && match m.state
       case SendSetup =>
         if x.bits == 0 then !m.sclk && s == SlaveReset(false)
         else x.bits <= 32 && m.sclk && m.mosi == (Bit(Message(x), 32 - x.bits) == 1) && Sampled(s, flash, x, x.bits - 1)
       case SendRise =>
         x.bits < 32 && !m.sclk && m.mosi == (Bit(Message(x), 31 - x.bits) == 1) && Sampled(s, flash, x, x.bits)
       case ReadSetup =>
         if x.bits == 0 && m.sclk then m.mosi == (Bit(Message(x), 0) == 1) && Sampled(s, flash, x, 31)
         else Serving(s, flash, x, if m.sclk || s.sclkPrev then x.bits else x.bits + 1)
       case ReadWait => !m.sclk && Serving(s, flash, x, if s.sclkPrev then x.bits else x.bits + 1)
       case ReadRise => !m.sclk && !s.sclkPrev && Serving(s, flash, x, x.bits + 1)
       case Emit => Serving(s, flash, x, if m.sclk || s.sclkPrev then x.bits else x.bits + 1)
       case _ => false
  }

  /** What the master holds of the message still to send. */
  predicate SendRegs(m: MasterRegs, x: Transfer) {
    && x.bits < 32 && m.txBitsLeft == 32 - x.bits && m.txShift == ShiftedOut(Message(x), x.bits)
    && m.rxByte == 0 && m.rxBitCount == 0 && m.bytesRemaining == x.length && m.wordReg == 0 && m.wordByteCount == 0
  }

  function ShiftedOut(message: nat, k: nat): nat {
    if k == 0 then message else ShiftIn(ShiftedOut(message, k - 1), 32, false)
  }

  /** What the master holds of the data received. */
  predicate ReadRegs(m: MasterRegs, flash: seq<u8>, x: Transfer)
    requires flash != []
  {
    var w := x.bits / 8;
    && x.bits < 8 * x.length && m.bytesRemaining == x.length - w
    && m.rxBitCount == x.bits % 8 && m.rxByte == Shr(FlashByte(flash, x.address, w), 8 - x.bits % 8)
    && m.wordByteCount == w % 4 && m.wordReg == Word(flash, x.address, w / 4, w % 4)
  }

  /** What the master holds while it offers a word. */
  predicate EmitRegs(m: MasterRegs, flash: seq<u8>, x: Transfer)
    requires flash != []
  {
    var w := x.bits / 8;
    && x.bits % 8 == 0 && 0 < w <= x.length && (w % 4 == 0 || w == x.length)
    && m.bytesRemaining == x.length - w && m.rxByte == 0 && m.rxBitCount == 0 && m.wordReg == 0 && m.wordByteCount == 0
    && m.emitWord == Word(flash, x.address, (w - 1) / 4, (w - 1) % 4 + 1)
  }

  /** How many words the fifo has received. */
  function Emitted(m: MasterRegs, x: Transfer): nat {
    match m.state
    case SendSetup => 0
    case SendRise => 0
    case Emit => if x.bits < 8 then 0 else (x.bits / 8 - 1) / 4
    case _ => x.bits / 8 / 4
  }

  /** A transfer is under way. */
  predicate Active(m: MasterRegs, s: SlaveRegs, flash: seq<u8>, x: Transfer) {
    && x.address < |flash| <= 0x100_0000 && 0 < x.length < 0x1_0000_0000
    && Locked(m, s, flash, x) && !m.error && !m.done
    && match m.state
       case SendSetup => SendRegs(m, x)
       case SendRise => SendRegs(m, x)
       case Emit => EmitRegs(m, flash, x)
       case ReadSetup => ReadRegs(m, flash, x)
       case ReadWait => ReadRegs(m, flash, x)
       case ReadRise => ReadRegs(m, flash, x)
       case _ => false
  }

  /** The transfer after one more clock edge. */
  function Next(m: MasterRegs, x: Transfer): Transfer {
    match m.state
    case SendRise => x.(bits := if x.bits == 31 then 0 else x.bits + 1)
    case ReadRise => x.(bits := x.bits + 1)
    case _ => x
  }

  // The flash, edge by edge

  lemma ShiftInBit(v: nat, i: nat, n: nat, b: bool)
    requires b == (Bit(v, i) == 1) && Shr(v, i) < Pow2(n)
    ensures ShiftIn(Shr(v, i + 1), n, b) == Shr(v, i)
  {
    NextBit(v, i);
    var y := Shr(v, i);
    assert 2 * Shr(v, i + 1) + Num1(b) == y;
    hide *;
    Small(y, Pow2(n));
  }

  lemma Small(y: nat, m: nat)
    requires y < m
    ensures y % m == y
  {
  }

  /** A prefix of a number of n bits. */
  lemma ShrNat(v: nat, i: nat)
    ensures Pow2(i) * Shr(v, i) <= v
  {
    DivNat(v, Pow2(i));
    hide Pow2;
  }

  lemma ShrBound(v: nat, n: nat, i: nat)
    requires v < Pow2(n) && i <= n
    ensures Shr(v, i) < Pow2(n - i)
  {
    ShrNat(v, i);
    hide *;
    Pow2Add(n - i, i);
    if Shr(v, i) >= Pow2(n - i) {
      MulLe(Pow2(i), Pow2(n - i), Shr(v, i));
    }
  }

  lemma MessageBits(x: Transfer)
    requires x.address < 0x100_0000
    ensures Message(x) < Pow2(32) && Shr(Message(x), 24) == 3 && Shr(Message(x), 32) == 0
    ensures forall i: nat :: i < 24 ==> Bit(Message(x), i) == Bit(x.address, i)
  {
    Pow2Values();
    var a := x.address;
    forall i: nat | i < 24 ensures Bit(Message(x), i) == Bit(a, i) {
      LowBits(a, 24, 3, i);
    }
    DivModUnique(Message(x), 3, a, Pow2(24));
    DivModUnique(Message(x), 0, Message(x), Pow2(32));
  }

  lemma AddressEnds(a: nat)
    requires a < 0x100_0000
    ensures Shr(a, 24) == 0 && Shr(a, 0) == a && a < Pow2(24) && Pow2(8) == 0x100
  {
    Pow2Values();
    DivModUnique(a, 0, a, Pow2(24));
    DivModUnique(a, a, 0, 1);
  }

  /** On a rising edge the flash takes the bit that the master drives. */
  lemma Samples(s: SlaveRegs, flash: seq<u8>, x: Transfer, j: nat, mosi: bool)
    requires x.address < |flash| <= 0x100_0000 && j < 32 && Sampled(s, flash, x, j) && !s.sclkPrev
    requires mosi == (Bit(Message(x), 31 - j) == 1)
    ensures Sampled(SlaveStep(s, flash, false, true, mosi), flash, x, j + 1)
  {
    hide Pow2, ShiftIn, Shr, Bit, Message;
    MessageBits(x);
    AddressEnds(x.address);
    if j < 8 {
      CommandShift(x, j, mosi);
    } else {
      AddressShift(x, j, mosi);
      FirstByte(flash, x.address);
    }
  }

  lemma CommandShift(x: Transfer, j: nat, mosi: bool)
    requires x.address < 0x100_0000 && j < 8 && mosi == (Bit(Message(x), 31 - j) == 1)
    ensures ShiftIn(Shr(Message(x), 32 - j), 8, mosi) == Shr(Message(x), 31 - j)
  {
    hide *;
    MessageBits(x);
    ShrBound(Message(x), 32, 31 - j);
    Pow2Mono(32 - (31 - j), 8);
    ShiftInBit(Message(x), 31 - j, 8, mosi);
    assert 32 - j == 31 - j + 1;
  }

  lemma AddressShift(x: Transfer, j: nat, mosi: bool)
    requires x.address < 0x100_0000 && 8 <= j < 32 && mosi == (Bit(Message(x), 31 - j) == 1)
    ensures ShiftIn(Shr(x.address, 32 - j), 24, mosi) == Shr(x.address, 31 - j)
  {
    hide *;
    MessageBits(x);
    AddressEnds(x.address);
    ShrBound(x.address, 24, 31 - j);
    Pow2Mono(24 - (31 - j), 24);
    ShiftInBit(x.address, 31 - j, 24, mosi);
    assert 32 - j == 31 - j + 1;
  }

  lemma FirstByte(flash: seq<u8>, a: nat)
    requires a < |flash|
    ensures FlashByte(flash, a, 0) == flash[a] == FlashAt(flash, a) && a % |flash| == a
  {
  }

  /** Without a rising edge it keeps what it has sampled. */
  lemma Holds(s: SlaveRegs, flash: seq<u8>, x: Transfer, j: nat, sclk: bool, mosi: bool)
    requires x.address < |flash| <= 0x100_0000 && j < 32 && Sampled(s, flash, x, j) && (sclk ==> s.sclkPrev)
    ensures Sampled(SlaveStep(s, flash, false, sclk, mosi), flash, x, j)
  {
  }

  /** Shifting a byte by i brings bit 6 - i to the top of what follows. */
  lemma ByteShift(byte: u8, i: nat)
    requires i <= 6
    ensures (byte * Pow2(i)) % 0x100 / 0x40 % 2 == Bit(byte, 6 - i)
    ensures ShiftIn((byte * Pow2(i)) % 0x100, 8, false) == (byte * Pow2(i + 1)) % 0x100
  {
    hide *;
    Powers64();
    Pow2Next(i);
    Pow2Add(i, 6 - i);
    BitIs(byte, 6 - i);
    Bits8(byte, Pow2(i), Pow2(6 - i));
    TwoFold(Pow2(i), byte, Pow2(i + 1));
    ShiftedTwice(byte * Pow2(i));
    ShiftInZero((byte * Pow2(i)) % 0x100);
    assert byte * Pow2(i) == Pow2(i) * byte && byte * Pow2(i + 1) == Pow2(i + 1) * byte;
  }

  lemma BitIs(a: nat, i: nat)
    ensures Bit(a, i) == a / Pow2(i) % 2
  {
  }

  lemma ShiftInZero(x: nat)
    ensures ShiftIn(x, 8, false) == (2 * x) % 0x100
  {
    Powers64();
    hide Pow2;
  }

  lemma Powers64()
    ensures Pow2(6) == 64 && Pow2(8) == 0x100
  {
    Pow2Values();
  }

  lemma Bits8(byte: u8, p: nat, r: nat)
    requires r > 0 && p * r == 64
    ensures (byte * p) % 0x100 / 0x40 % 2 == byte / r % 2
  {
    var q, t := byte / r, byte % r;
    assert byte == r * q + t;
    assert byte * p == 64 * q + t * p by {
      MulDistr(p, r * q, t);
      MulAssoc(p, r, q);
    }
    MulLt(p, t, r);
    var y := t * p;
    hide *;
    TopOf(q, y);
  }

  lemma TopOf(q: nat, y: nat)
    requires y < 64
    ensures (64 * q + y) % 0x100 / 0x40 % 2 == q % 2
  {
    var h, l := q / 4, q % 4;
    DivModUnique(64 * q + y, h, 64 * l + y, 0x100);
    DivModUnique(64 * l + y, l, y, 0x40);
    DivModUnique(q, 2 * h + l / 2, l % 2, 2);
    DivModUnique(l, l / 2, l % 2, 2);
  }

  lemma ShiftedTwice(y: nat)
    ensures (2 * (y % 0x100)) % 0x100 == (2 * y) % 0x100
  {
    var q, r := y / 0x100, y % 0x100;
    var q', r' := (2 * r) / 0x100, (2 * r) % 0x100;
    DivModUnique(2 * y, 2 * q + q', r', 0x100);
  }

  lemma NextByteAddress(flash: seq<u8>, a: nat, k: nat)
    requires a < |flash| <= 0x100_0000
    ensures NextAddress(flash, (a + k) % |flash|) == (a + (k + 1)) % |flash|
  {
    var d, r, q := |flash|, (a + k) % |flash|, (a + k) / |flash|;
    assert a + k == q * d + r;
    if r == d - 1 {
      assert a + (k + 1) == (q + 1) * d + 0;
      DivModUnique(a + (k + 1), q + 1, 0, d);
    } else {
      DivModUnique(a + (k + 1), q, r + 1, d);
    }
  }

  lemma TopBit(byte: u8)
    ensures byte / 0x80 % 2 == Bit(byte, 7) && (byte * Pow2(0)) % 0x100 == byte
  {
  }

  /** On a falling edge the flash moves to the next bit. */
  lemma Advances(s: SlaveRegs, flash: seq<u8>, x: Transfer, f: nat, mosi: bool)
    requires x.address < |flash| <= 0x100_0000 && Serving(s, flash, x, f) && s.sclkPrev
    ensures Serving(SlaveStep(s, flash, false, false, mosi), flash, x, f + 1)
  {
    hide Bit, Pow2, NextAddress, ShiftIn;
    if f == 0 {
      FirstByte(flash, x.address);
      TopBit(FlashByte(flash, x.address, 0));
    } else if (f - 1) % 8 == 7 {
      NextByteAddress(flash, x.address, (f - 1) / 8);
      TopBit(FlashByte(flash, x.address, f / 8));
      assert (f - 1) / 8 + 1 == f / 8 && f % 8 == 0;
    } else {
      assert (f - 1) / 8 == f / 8 && f % 8 == (f - 1) % 8 + 1;
      ByteShift(FlashByte(flash, x.address, f / 8), (f - 1) % 8);
    }
  }

  /** Without a falling edge it stays where it is. */
  lemma Serves(s: SlaveRegs, flash: seq<u8>, x: Transfer, f: nat, sclk: bool, mosi: bool)
    requires x.address < |flash| <= 0x100_0000 && Serving(s, flash, x, f) && (s.sclkPrev ==> sclk)
    ensures Serving(SlaveStep(s, flash, false, sclk, mosi), flash, x, f)
  {
  }

  // The master, edge by edge

  /** What the master still holds of the message after k bits. */
  lemma {:induction false} ShiftedBit(v: nat, k: nat, i: nat)
    requires v < Pow2(32) && k <= i < 32
    ensures Bit(ShiftedOut(v, k), i) == Bit(v, i - k)
  {
    hide Pow2;
    if k == 0 {
    } else {
      ShiftedBit(v, k - 1, i - 1);
      ShiftedOnce(ShiftedOut(v, k - 1), i);
    }
  }

  lemma ShiftedOnce(y: nat, i: nat)
    requires 0 < i < 32
    ensures Bit(ShiftIn(y, 32, false), i) == Bit(y, i - 1)
  {
    hide Pow2;
    var z, h := (2 * y) % Pow2(32), (2 * y) / Pow2(32);
    assert 2 * y == z + Pow2(32) * h;
    DivNat(2 * y, Pow2(32));
    LowBits(z, 32, h, i);
    HalfFirst(2 * y, i);
    assert 2 * y / 2 == y;
  }

  /** The bit that the master puts on the wire. */
  lemma Driven(x: Transfer, m: MasterRegs)
    requires x.address < 0x100_0000 && SendRegs(m, x)
    ensures m.txShift / 0x8000_0000 % 2 == Bit(Message(x), 31 - x.bits)
  {
    hide Pow2, Message, ShiftedOut, Bit;
    MessageBits(x);
    ShiftedBit(Message(x), x.bits, 31);
    Top31(m.txShift);
  }

  lemma Top31(y: nat)
    ensures Bit(y, 31) == y / 0x8000_0000 % 2
  {
    Pow2Values();
    assert Pow2(32) == 2 * Pow2(31);
  }

  lemma SendSetupEdge(m: MasterRegs, s: SlaveRegs, flash: seq<u8>, x: Transfer, a: nat, n: nat, ready: bool)
    requires Active(m, s, flash, x) && m.state == SendSetup
    ensures Active(MasterStep(m, false, a, n, ready, Miso(s, m.cs)), SlaveStep(s, flash, m.cs, m.sclk, m.mosi), flash, x)
  {
    hide Bit, Message, ShiftedOut, Shr, ShiftIn, Sampled, SlaveStep;
    Driven(x, m);
    if x.bits > 0 {
      assert 31 - (x.bits - 1) == 32 - x.bits;
      Samples(s, flash, x, x.bits - 1, m.mosi);
    } else {
      Selected(flash, x, m.mosi);
    }
  }

  /** The first edge after the chip select wakes the flash. */
  lemma Selected(flash: seq<u8>, x: Transfer, mosi: bool)
    requires x.address < |flash| <= 0x100_0000
    ensures Sampled(SlaveStep(SlaveReset(false), flash, false, false, mosi), flash, x, 0)
  {
    MessageBits(x);
    hide Message, Shr, ShiftIn;
  }

  lemma SendRiseEdge(m: MasterRegs, s: SlaveRegs, flash: seq<u8>, x: Transfer, a: nat, n: nat, ready: bool)
    requires Active(m, s, flash, x) && m.state == SendRise
    ensures Active(MasterStep(m, false, a, n, ready, Miso(s, m.cs)), SlaveStep(s, flash, m.cs, m.sclk, m.mosi), flash, Next(m, x))
  {
    hide Bit, Message, ShiftIn, Sampled, Word, FlashByte;
    var s' := SlaveStep(s, flash, m.cs, m.sclk, m.mosi);
    Holds(s, flash, x, x.bits, m.sclk, m.mosi);
    assert s'.sclkPrev == m.sclk by { Follows(s, flash, m.sclk, m.mosi); }
    hide SlaveStep;
    SameSample(s', flash, x, x.(bits := 0), x.bits);
    SameSample(s', flash, x, x.(bits := x.bits + 1), x.bits);
    NothingReceived(flash, x.address);
    assert 32 - (x.bits + 1) == 31 - x.bits;
  }

  lemma Follows(s: SlaveRegs, flash: seq<u8>, sclk: bool, mosi: bool)
    ensures SlaveStep(s, flash, false, sclk, mosi).sclkPrev == sclk
  {
  }

  /** Where the flash is does not depend on how far the master has got. */
  lemma SameSample(s: SlaveRegs, flash: seq<u8>, x: Transfer, y: Transfer, j: nat)
    requires x.address == y.address < |flash| <= 0x100_0000 && j <= 32 && Sampled(s, flash, x, j)
    ensures Sampled(s, flash, y, j) && Message(x) == Message(y)
  {
  }

  lemma NothingReceived(flash: seq<u8>, a: nat)
    requires flash != []
    ensures Shr(FlashByte(flash, a, 0), 8) == 0 && Word(flash, a, 0, 0) == 0
  {
  }

  lemma ReadSetupEdge(m: MasterRegs, s: SlaveRegs, flash: seq<u8>, x: Transfer, a: nat, n: nat, ready: bool)
    requires Active(m, s, flash, x) && m.state == ReadSetup
    ensures Active(MasterStep(m, false, a, n, ready, Miso(s, m.cs)), SlaveStep(s, flash, m.cs, m.sclk, m.mosi), flash, x)
  {
    hide Bit, Message, ShiftIn, Sampled, Word, FlashByte, Serving, SlaveStep;
    Follows(s, flash, m.sclk, m.mosi);
    if x.bits == 0 && m.sclk {
      Samples(s, flash, x, 31, m.mosi);
      SampledAll(SlaveStep(s, flash, m.cs, m.sclk, m.mosi), flash, x);
    } else {
      Follow(s, flash, x, x.bits, m.sclk, m.mosi);
    }
  }

  lemma SampledAll(s: SlaveRegs, flash: seq<u8>, x: Transfer)
    requires x.address < |flash| <= 0x100_0000 && Sampled(s, flash, x, 32)
    ensures Serving(s, flash, x, 0)
  {
  }

  /** One falling edge for each bit: it is either still to come or has been seen. */
  lemma Follow(s: SlaveRegs, flash: seq<u8>, x: Transfer, b: nat, sclk: bool, mosi: bool)
    requires x.address < |flash| <= 0x100_0000 && !(sclk && s.sclkPrev)
    requires Serving(s, flash, x, if sclk || s.sclkPrev then b else b + 1)
    ensures Serving(SlaveStep(s, flash, false, sclk, mosi), flash, x, if sclk then b else b + 1)
    ensures SlaveStep(s, flash, false, sclk, mosi).sclkPrev == sclk
  {
    hide Serving, SlaveStep;
    Follows(s, flash, sclk, mosi);
    if s.sclkPrev {
      Advances(s, flash, x, b, mosi);
    } else {
      Serves(s, flash, x, if sclk then b else b + 1, sclk, mosi);
    }
  }

  lemma ReadWaitEdge(m: MasterRegs, s: SlaveRegs, flash: seq<u8>, x: Transfer, a: nat, n: nat, ready: bool)
    requires Active(m, s, flash, x) && m.state == ReadWait
    ensures Active(MasterStep(m, false, a, n, ready, Miso(s, m.cs)), SlaveStep(s, flash, m.cs, m.sclk, m.mosi), flash, x)
  {
    hide Bit, Message, ShiftIn, Sampled, Word, FlashByte, Serving, SlaveStep;
    Follow(s, flash, x, x.bits, m.sclk, m.mosi);
  }

  lemma EmitEdge(m: MasterRegs, s: SlaveRegs, flash: seq<u8>, x: Transfer, a: nat, n: nat, ready: bool)
    requires Active(m, s, flash, x) && m.state == Emit && !(ready && m.bytesRemaining == 0)
    ensures Active(MasterStep(m, false, a, n, ready, Miso(s, m.cs)), SlaveStep(s, flash, m.cs, m.sclk, m.mosi), flash, x)
  {
    hide Bit, Message, ShiftIn, Sampled, Word, FlashByte, Serving, SlaveStep, Shr;
    Follow(s, flash, x, x.bits, m.sclk, m.mosi);
    EightZeros(flash, x.address, x.bits / 8);
  }

  lemma EightZeros(flash: seq<u8>, a: nat, w: nat)
    requires flash != []
    ensures Shr(FlashByte(flash, a, w), 8) == 0 && Word(flash, a, w / 4, 0) == 0
  {
  }

  lemma ReadRiseEdge(m: MasterRegs, s: SlaveRegs, flash: seq<u8>, x: Transfer, a: nat, n: nat, ready: bool)
    requires Active(m, s, flash, x) && m.state == ReadRise
    ensures Active(MasterStep(m, false, a, n, ready, Miso(s, m.cs)), SlaveStep(s, flash, m.cs, m.sclk, m.mosi), flash, Next(m, x))
  {
    hide Bit, Message, ShiftIn, Sampled, Word, FlashByte, SlaveStep, Shr, Serving, ReadRegs, EmitRegs, Miso, MasterStep;
    Follow(s, flash, x, x.bits, m.sclk, m.mosi);
    SameServing(SlaveStep(s, flash, m.cs, m.sclk, m.mosi), flash, x, Next(m, x), x.bits + 1);
    Received(s, flash, x);
    if x.bits % 8 == 7 {
      ByteReceived(m, flash, x, a, n, ready, Miso(s, m.cs));
    } else {
      BitReceived(m, flash, x, a, n, ready, Miso(s, m.cs));
    }
  }

  lemma BitReceived(m: MasterRegs, flash: seq<u8>, x: Transfer, a: nat, n: nat, ready: bool, miso: bool)
    requires flash != [] && m.state == ReadRise && ReadRegs(m, flash, x) && x.bits % 8 < 7
    requires ShiftIn(Shr(FlashByte(flash, x.address, x.bits / 8), 8 - x.bits % 8), 8, miso)
          == Shr(FlashByte(flash, x.address, x.bits / 8), 7 - x.bits % 8)
    ensures var m' := MasterStep(m, false, a, n, ready, miso);
            m'.state == ReadSetup && m'.sclk && m'.cs == m.cs && m'.error == m.error && !m'.done && ReadRegs(m', flash, Next(m, x))
  {
    hide ShiftIn, Word, FlashByte, Shr, Or, Shl32;
    assert (x.bits + 1) / 8 == x.bits / 8 && (x.bits + 1) % 8 == x.bits % 8 + 1;
  }

  lemma ByteReceived(m: MasterRegs, flash: seq<u8>, x: Transfer, a: nat, n: nat, ready: bool, miso: bool)
    requires flash != [] && m.state == ReadRise && ReadRegs(m, flash, x) && x.bits % 8 == 7 && x.length < 0x1_0000_0000
    requires ShiftIn(Shr(FlashByte(flash, x.address, x.bits / 8), 8 - x.bits % 8), 8, miso)
          == Shr(FlashByte(flash, x.address, x.bits / 8), 7 - x.bits % 8)
    ensures var m' := MasterStep(m, false, a, n, ready, miso);
            && m'.sclk && m'.cs == m.cs && m'.error == m.error && !m'.done
            && ((m'.state == Emit && EmitRegs(m', flash, Next(m, x))) || (m'.state == ReadSetup && ReadRegs(m', flash, Next(m, x))))
  {
    hide *;
    EightZeros(flash, x.address, x.bits / 8 + 1);
    WholeByte(flash, x.address, x.bits / 8);
    if x.bits / 8 % 4 == 3 || x.bits / 8 + 1 == x.length {
      WordReceived(m, flash, x, a, n, ready, miso);
    } else {
      MoreToCome(m, flash, x, a, n, ready, miso);
    }
  }

  /** The byte completes a word, or the transfer. */
  lemma WordReceived(m: MasterRegs, flash: seq<u8>, x: Transfer, a: nat, n: nat, ready: bool, miso: bool)
    requires flash != [] && m.state == ReadRise && ReadRegs(m, flash, x) && x.bits % 8 == 7 && x.length < 0x1_0000_0000
    requires x.bits / 8 % 4 == 3 || x.bits / 8 + 1 == x.length
    requires ShiftIn(Shr(FlashByte(flash, x.address, x.bits / 8), 8 - x.bits % 8), 8, miso)
          == Shr(FlashByte(flash, x.address, x.bits / 8), 7 - x.bits % 8)
    requires var w := x.bits / 8; var b := FlashByte(flash, x.address, w);
             Shr(b, 0) == b && Or(Word(flash, x.address, w / 4, w % 4), Shl32(b, 8 * (w % 4))) == Word(flash, x.address, w / 4, w % 4 + 1)
    ensures var m' := MasterStep(m, false, a, n, ready, miso);
            m'.sclk && m'.cs == m.cs && m'.error == m.error && !m'.done && m'.state == Emit && EmitRegs(m', flash, Next(m, x))
  {
    hide ShiftIn, Word, FlashByte, Shr, Or, Shl32;
    assert (x.bits + 1) / 8 == x.bits / 8 + 1 && (x.bits + 1) % 8 == 0;
  }

  /** The byte joins the word so far. */
  lemma MoreToCome(m: MasterRegs, flash: seq<u8>, x: Transfer, a: nat, n: nat, ready: bool, miso: bool)
    requires flash != [] && m.state == ReadRise && ReadRegs(m, flash, x) && x.bits % 8 == 7 && x.length < 0x1_0000_0000
    requires x.bits / 8 % 4 != 3 && x.bits / 8 + 1 != x.length
    requires ShiftIn(Shr(FlashByte(flash, x.address, x.bits / 8), 8 - x.bits % 8), 8, miso)
          == Shr(FlashByte(flash, x.address, x.bits / 8), 7 - x.bits % 8)
    requires var w := x.bits / 8; var b := FlashByte(flash, x.address, w);
             && Shr(b, 0) == b && Or(Word(flash, x.address, w / 4, w % 4), Shl32(b, 8 * (w % 4))) == Word(flash, x.address, w / 4, w % 4 + 1)
             && Shr(FlashByte(flash, x.address, w + 1), 8) == 0
    ensures var m' := MasterStep(m, false, a, n, ready, miso);
            m'.sclk && m'.cs == m.cs && m'.error == m.error && !m'.done && m'.state == ReadSetup && ReadRegs(m', flash, Next(m, x))
  {
    hide ShiftIn, Word, FlashByte, Shr, Or, Shl32;
    var w := x.bits / 8;
    assert (x.bits + 1) / 8 == w + 1 && (x.bits + 1) % 8 == 0;
    assert (w + 1) / 4 == w / 4 && (w + 1) % 4 == w % 4 + 1;
  }

  lemma SameServing(s: SlaveRegs, flash: seq<u8>, x: Transfer, y: Transfer, f: nat)
    requires x.address == y.address < |flash| <= 0x100_0000 && Serving(s, flash, x, f)
    ensures Serving(s, flash, y, f)
  {
  }

  /** The bit sampled extends the byte so far. */
  lemma Received(s: SlaveRegs, flash: seq<u8>, x: Transfer)
    requires x.address < |flash| <= 0x100_0000 && Serving(s, flash, x, x.bits + 1)
    ensures var b := FlashByte(flash, x.address, x.bits / 8);
            ShiftIn(Shr(b, 8 - x.bits % 8), 8, Miso(s, false)) == Shr(b, 7 - x.bits % 8)
  {
    hide Pow2, FlashByte, Shr, ShiftIn, Bit;
    var b := FlashByte(flash, x.address, x.bits / 8);
    AddressEnds(0);
    ShrBound(b, 8, 7 - x.bits % 8);
    Pow2Mono(8 - (7 - x.bits % 8), 8);
    ShiftInBit(b, 7 - x.bits % 8, 8, Miso(s, false));
    assert 8 - x.bits % 8 == 7 - x.bits % 8 + 1;
  }

  /** A whole byte joins the word at its place. */
  lemma WholeByte(flash: seq<u8>, a: nat, w: nat)
    requires flash != []
    ensures Shr(FlashByte(flash, a, w), 0) == FlashByte(flash, a, w)
    ensures Or(Word(flash, a, w / 4, w % 4), Shl32(FlashByte(flash, a, w), 8 * (w % 4))) == Word(flash, a, w / 4, w % 4 + 1)
  {
    var b, n := FlashByte(flash, a, w), w % 4;
    ShrNone(b);
    WordBound(flash, a, w / 4, n);
    InWord(b, n);
    OrDisjoint(Word(flash, a, w / 4, n), b, 8 * n);
    assert 4 * (w / 4) + n == w;
    hide Or, Pow2, FlashByte;
  }

  lemma InWord(b: u8, n: nat)
    requires n < 4
    ensures Shl32(b, 8 * n) == b * Pow2(8 * n)
  {
    Pow2Values();
    Pow2Mono(8 * n, 24);
    MulBound(b, Pow2(8 * n), 0xFF, 0x100_0000);
    Small(b * Pow2(8 * n), 0x1_0000_0000);
  }

  /** Every clock edge keeps master and flash in lockstep, whatever the fifo does. */
  lemma Clocked(m: MasterRegs, s: SlaveRegs, flash: seq<u8>, x: Transfer, a: nat, n: nat, ready: bool)
    requires Active(m, s, flash, x) && !(m.state == Emit && ready && m.bytesRemaining == 0)
    ensures Active(MasterStep(m, false, a, n, ready, Miso(s, m.cs)), SlaveStep(s, flash, m.cs, m.sclk, m.mosi), flash, Next(m, x))
  {
    hide Locked, SendRegs, ReadRegs, EmitRegs, MasterStep, SlaveStep, Miso;
    match m.state {
      case SendSetup => SendSetupEdge(m, s, flash, x, a, n, ready);
      case SendRise => SendRiseEdge(m, s, flash, x, a, n, ready);
      case ReadSetup => ReadSetupEdge(m, s, flash, x, a, n, ready);
      case ReadWait => ReadWaitEdge(m, s, flash, x, a, n, ready);
      case ReadRise => ReadRiseEdge(m, s, flash, x, a, n, ready);
      case Emit => EmitEdge(m, s, flash, x, a, n, ready);
      case _ =>
    }
  }
}
