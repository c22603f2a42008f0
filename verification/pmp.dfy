/** Physical memory protection: the encoding of regions, and what locking them leaves possible. */
module Pmp {
  import opened Arith
  import opened Bits
  import opened BitLaws
  import opened Limbs

  // Regions

  /** The address word for a naturally aligned region. */
  function MakeNapot(base: nat, size: nat): nat
    requires size > 0
  {
    Or(base / 4, (size - 1) / 8)
  }

  function TrailingOnes(a: nat): nat {
    if a % 2 == 0 then 0 else 1 + TrailingOnes(a / 2)
  }

  /** A region of physical memory, from base up to but not including end. */
  datatype Region = Region(base: nat, end: nat)

  /** The region that an address word stands for: its trailing ones give the size, the bits above them the place. */
  function Napot(a: nat): Region {
    var size := Pow2(TrailingOnes(a) + 3);
    var base := a / Pow2(TrailingOnes(a) + 1) * size;
    Region(base, base + size)
  }

  /** m, a zero, and below it the ones of p - 1. */
  function WithOnes(m: nat, p: nat): int {
    m * (2 * p) + p - 1
  }

  lemma {:induction false} OnesBelow(m: nat, k: nat, x: nat)
    requires x == WithOnes(m, Pow2(k))
    ensures TrailingOnes(x) == k
  {
    hide *;
    if k == 0 {
      NoOnes(m, x);
    } else {
      Pow2Next(k - 1);
      OneMore(m, Pow2(k - 1), x);
      OnesBelow(m, k - 1, x / 2);
    }
  }

  lemma NoOnes(m: nat, x: nat)
    requires x == WithOnes(m, Pow2(0))
    ensures TrailingOnes(x) == 0
  {
    assert x == m * 2;
  }

  lemma OneMore(m: nat, p: nat, x: nat)
    requires p >= 1 && x == WithOnes(m, 2 * p)
    ensures x / 2 == WithOnes(m, p) && TrailingOnes(x) == 1 + TrailingOnes(x / 2)
  {
    Doubled(m, p);
    assert x == 2 * WithOnes(m, p) + 1;
  }

  lemma Doubled(m: nat, p: nat)
    ensures m * (2 * (2 * p)) == 2 * (m * (2 * p))
  {
  }

  /** Encoding a region of 2^n bytes, aligned to its size, and decoding it gives the region back. */
  lemma NapotRoundTrip(base: nat, n: nat)
    requires n >= 3 && base % Pow2(n) == 0
    ensures Napot(MakeNapot(base, Pow2(n))) == Region(base, base + Pow2(n))
  {
    hide *;
    var k := n - 3;
    var p := Pow2(k);
    FourPowers(k);
    var m := base / Pow2(n);
    Multiple(base, Pow2(n));
    EightTimes(m, p, base);
    Encoded(base, m, p);
    MakeNapotIs(base, Pow2(n));
    var a := p - 1 + m * (2 * p);
    OrDisjoint(p - 1, m, k + 1);
    OrComm(base / 4, p - 1);
    SameSum(m, p);
    OnesBelow(m, k, a);
    DivModUnique(a, m, p - 1, 2 * p);
    NapotIs(a, k, m);
  }

  lemma Multiple(x: nat, d: nat)
    requires d > 0 && x % d == 0
    ensures 0 <= x / d && x == d * (x / d)
  {
  }

  lemma MakeNapotIs(base: nat, size: nat)
    requires size > 0
    ensures MakeNapot(base, size) == Or(base / 4, (size - 1) / 8)
  {
  }

  lemma FourPowers(k: nat)
    ensures Pow2(k + 1) == 2 * Pow2(k) && Pow2(k + 3) == 8 * Pow2(k)
  {
  }

  lemma SameSum(m: nat, p: nat)
    ensures p - 1 + m * (2 * p) == WithOnes(m, p)
  {
  }

  lemma EightTimes(m: nat, p: nat, base: nat)
    requires base == (8 * p) * m
    ensures m * (8 * p) == base && base == 8 * p * m
  {
  }

  lemma NapotIs(a: nat, k: nat, m: nat)
    requires TrailingOnes(a) == k && a / Pow2(k + 1) == m
    ensures Napot(a) == Region(m * Pow2(k + 3), m * Pow2(k + 3) + Pow2(k + 3))
  {
  }

  lemma Encoded(base: nat, m: nat, p: nat)
    requires base == 8 * p * m && p >= 1
    ensures base / 4 == m * (2 * p) && (8 * p - 1) / 8 == p - 1 && p - 1 < 2 * p
  {
  }

  // The unit

  const ENTRIES: nat := 16

  /** The configuration bytes and address words of all entries. */
  datatype Unit = Unit(cfg: seq<u8>, addr: seq<u64>)

  predicate WellFormed(u: Unit) {
    |u.cfg| == |u.addr| == ENTRIES
  }

  // The fields of a configuration byte

  predicate Readable(cfg: u8) { cfg % 2 == 1 }
  predicate Writable(cfg: u8) { cfg / 2 % 2 == 1 }
  predicate Executable(cfg: u8) { cfg / 4 % 2 == 1 }
  predicate Locked(cfg: u8) { cfg / 0x80 == 1 }

  datatype Matching = Off | Tor | Na4 | NapotMode

  function Mode(cfg: u8): Matching {
    match cfg / 8 % 4
    case 0 => Off
    case 1 => Tor
    case 2 => Na4
    case _ => NapotMode
  }

  datatype Csr = WriteAddr(i: nat, value: u64) | WriteCfg(first: nat, value: u64)

  /** A write to an address register is ignored if its entry is locked, or if the next entry is locked and uses it as the
      bottom of its range. */
  predicate AddrLocked(u: Unit, i: nat)
    requires WellFormed(u) && i < ENTRIES
  {
    Locked(u.cfg[i]) || (i + 1 < ENTRIES && Locked(u.cfg[i + 1]) && Mode(u.cfg[i + 1]) == Tor)
  }

  function ByteOf(value: u64, i: nat): u8 {
    Shr(value, 8 * i) % 0x100
  }

  /** One write to a control register: pmpaddr of entry i, or the pmpcfg that holds the eight entries from the first on. */
  function Write(u: Unit, w: Csr): (v: Unit)
    requires WellFormed(u)
    ensures WellFormed(v)
  {
    match w
    case WriteAddr(i, value) =>
      if i >= ENTRIES || AddrLocked(u, i) then u else u.(addr := u.addr[i := value])
    case WriteCfg(first, value) =>
      u.(cfg := seq(ENTRIES, i requires 0 <= i < ENTRIES =>
        if first <= i < first + 8 && !Locked(u.cfg[i]) then ByteOf(value, i - first) else u.cfg[i]))
  }

  function Writes(u: Unit, ws: seq<Csr>): (v: Unit)
    requires WellFormed(u)
    ensures WellFormed(v)
    decreases |ws|
  {
    if ws == [] then u else Writes(Write(u, ws[0]), ws[1..])
  }

  /** Once every entry is locked, no sequence of writes changes anything. */
  lemma {:induction false} LockedForever(u: Unit, ws: seq<Csr>)
    requires WellFormed(u) && forall i :: 0 <= i < ENTRIES ==> Locked(u.cfg[i])
    ensures Writes(u, ws) == u
    decreases |ws|
  {
    if ws == [] {
    } else {
      hide Locked, ByteOf, Mode;
      assert Write(u, ws[0]).cfg == u.cfg;
      LockedForever(u, ws[1..]);
    }
  }

  // Access checks

  datatype Privilege = Machine | Lower
  datatype Kind = Read | Store | Execute

  function Times4(x: nat): nat {
    4 * x
  }

  /** The region of an entry; none if it is switched off. */
  function EntryRegion(u: Unit, i: nat): Region
    requires WellFormed(u) && i < ENTRIES
  {
    match Mode(u.cfg[i])
    case Off => Region(0, 0)
    case Tor => Region(if i == 0 then 0 else Times4(u.addr[i - 1]), Times4(u.addr[i]))
    case Na4 => Region(Times4(u.addr[i]), Times4(u.addr[i]) + 4)
    case NapotMode => Napot(u.addr[i])
  }

  /** What a locked entry covers is fixed by its configuration, its address word and, for a range, the address word below. */
  lemma RegionKept(u: Unit, w: Csr, i: nat)
    requires WellFormed(u) && i < ENTRIES && Locked(u.cfg[i])
    ensures Write(u, w).cfg[i] == u.cfg[i] && EntryRegion(Write(u, w), i) == EntryRegion(u, i)
  {
    hide ByteOf, Napot, Locked, Mode, Times4;
  }

  /** A locked entry stays as it is, and covers what it covers, over every sequence of writes, whatever the others are. */
  lemma {:induction false} LockedEntry(u: Unit, ws: seq<Csr>, i: nat)
    requires WellFormed(u) && i < ENTRIES && Locked(u.cfg[i])
    ensures Writes(u, ws).cfg[i] == u.cfg[i] && EntryRegion(Writes(u, ws), i) == EntryRegion(u, i)
    decreases |ws|
  {
    if ws == [] {
    } else {
      hide Locked, EntryRegion, Write;
      RegionKept(u, ws[0], i);
      LockedEntry(Write(u, ws[0]), ws[1..], i);
    }
  }

  predicate Overlaps(r: Region, a: nat, n: nat) {
    r.base < r.end && a < r.end && r.base < a + n
  }

  predicate Contains(r: Region, a: nat, n: nat) {
    r.base <= a && a + n <= r.end
  }

  predicate Permits(cfg: u8, who: Privilege, kind: Kind) {
    || (who == Machine && !Locked(cfg))
    || match kind { case Read => Readable(cfg) case Store => Writable(cfg) case Execute => Executable(cfg) }
  }

  /** Whether an access to the n bytes from a on is allowed, as section 3.7.1 of the privileged architecture decides it:
      the lowest entry that matches any of the bytes must match all of them and give permission; without a match only
      machine mode proceeds. */
  predicate Allowed(u: Unit, who: Privilege, kind: Kind, a: nat, n: nat, i: nat := 0)
    requires WellFormed(u) && i <= ENTRIES
    decreases ENTRIES - i
  {
    if i == ENTRIES then who == Machine
    else if Overlaps(EntryRegion(u, i), a, n) then Contains(EntryRegion(u, i), a, n) && Permits(u.cfg[i], who, kind)
    else Allowed(u, who, kind, a, n, i + 1)
  }

  // Locking

  const BOOTROM_BASE: nat := 0x10000
  const BOOTROM_SIZE: nat := 0x10000
  const OTP_BASE: nat := 0xF0000000
  const OTP_SIZE: nat := 0x20
  const COUNTER_BASE: nat := 0xF0001000
  const COUNTER_SIZE: nat := 8

  const LOCK_NAPOT_NO_ACCESS: u8 := 0x98
  const LOCK_NAPOT_RX: u8 := 0x9D
  const LOCK_NAPOT_RWX: u8 := 0x9F
  const LOCK_OFF: u8 := 0x80

  /** What the locking leaves in the unit: three regions, the rest of memory, and nothing free. */
  predicate IsLocked(u: Unit) {
    && WellFormed(u)
    && u.cfg[0] == LOCK_NAPOT_RX && u.cfg[1] == LOCK_NAPOT_NO_ACCESS && u.cfg[2] == LOCK_NAPOT_NO_ACCESS && u.cfg[3] == LOCK_NAPOT_RWX
    && (forall i :: 4 <= i < ENTRIES ==> u.cfg[i] == LOCK_OFF)
    && Napot(u.addr[0]) == Region(BOOTROM_BASE, BOOTROM_BASE + BOOTROM_SIZE)
    && Napot(u.addr[1]) == Region(OTP_BASE, OTP_BASE + OTP_SIZE)
    && Napot(u.addr[2]) == Region(COUNTER_BASE, COUNTER_BASE + COUNTER_SIZE)
    && Napot(u.addr[3]) == Region(0, 0x40_0000_0000_0000)
  }

  /** The unit, with the control registers that software writes. */
  class Controller {
    var cfg: seq<u8>
    var addr: seq<u64>

    function State(): Unit
      reads this
    {
      Unit(cfg, addr)
    }

    /** Out of reset: every entry is off and unlocked. */
    constructor ()
      ensures WellFormed(State()) && forall i :: 0 <= i < ENTRIES ==> !Locked(cfg[i])
    {
      cfg := seq(ENTRIES, _ => 0);
      addr := seq(ENTRIES, _ => 0);
    }

    method WriteCsr(w: Csr)
      requires WellFormed(State())
      modifies this
      ensures State() == Write(old(State()), w)
    {
      match w {
        case WriteAddr(i, value) =>
          if i < ENTRIES && !AddrLocked(State(), i) {
            addr := addr[i := value];
          }
        case WriteCfg(first, value) =>
          var old' := cfg;
          cfg := seq(ENTRIES, i requires 0 <= i < ENTRIES && |old'| == ENTRIES =>
            if first <= i < first + 8 && !Locked(old'[i]) then ByteOf(value, i - first) else old'[i]);
      }
    }

    /** Locks the boot ROM, the fuses and the counter, and everything else open but fixed. */
    method LockPmp()
      requires WellFormed(State()) && forall i :: 0 <= i < ENTRIES ==> !Locked(cfg[i])
      modifies this
      ensures IsLocked(State())
    {
      hide Napot, MakeNapot, Write, Locked, IsLocked;
      ghost var u := State();
      Regions();
      var pmpaddr0 := MakeNapot(BOOTROM_BASE, BOOTROM_SIZE);
      var pmpaddr1 := MakeNapot(OTP_BASE, OTP_SIZE);
      var pmpaddr2 := MakeNapot(COUNTER_BASE, COUNTER_SIZE);
      var pmpaddr3 := MakeNapot(0, 0x40_0000_0000_0000);
      AddrWrite(u, 0, pmpaddr0);
      WriteCsr(WriteAddr(0, pmpaddr0));
      AddrWrite(State(), 1, pmpaddr1);
      WriteCsr(WriteAddr(1, pmpaddr1));
      AddrWrite(State(), 2, pmpaddr2);
      WriteCsr(WriteAddr(2, pmpaddr2));
      AddrWrite(State(), 3, pmpaddr3);
      WriteCsr(WriteAddr(3, pmpaddr3));
      CfgWrites(State());
      WriteCsr(WriteCfg(8, CFG2));
      WriteCsr(WriteCfg(0, CFG0));
    }
  }

  /** While the entries are free, an address word can be set. */
  lemma AddrWrite(u: Unit, i: nat, value: u64)
    requires WellFormed(u) && i < ENTRIES && Free(u)
    ensures Write(u, WriteAddr(i, value)) == u.(addr := u.addr[i := value]) && Free(Write(u, WriteAddr(i, value)))
  {
    hide Locked, Mode;
  }

  predicate Free(u: Unit) {
    WellFormed(u) && forall i :: 0 <= i < ENTRIES ==> !Locked(u.cfg[i])
  }

  /** Writing both halves of the configuration locks everything. */
  lemma CfgWrites(u: Unit)
    requires Free(u)
    requires Napot(u.addr[0]) == Region(BOOTROM_BASE, BOOTROM_BASE + BOOTROM_SIZE)
    requires Napot(u.addr[1]) == Region(OTP_BASE, OTP_BASE + OTP_SIZE)
    requires Napot(u.addr[2]) == Region(COUNTER_BASE, COUNTER_BASE + COUNTER_SIZE)
    requires Napot(u.addr[3]) == Region(0, 0x40_0000_0000_0000)
    ensures IsLocked(Write(Write(u, WriteCfg(8, CFG2)), WriteCfg(0, CFG0)))
  {
    hide Napot, ByteOf, Locked;
    ConfigBytes();
  }

  const CFG0: u64 := 0x80808080_9F98989D
  const CFG2: u64 := 0x80808080_80808080

  /** The four regions, as their address words decode. */
  lemma Regions()
    ensures MakeNapot(BOOTROM_BASE, BOOTROM_SIZE) < 0x1_0000_0000_0000_0000
    ensures MakeNapot(OTP_BASE, OTP_SIZE) < 0x1_0000_0000_0000_0000
    ensures MakeNapot(COUNTER_BASE, COUNTER_SIZE) < 0x1_0000_0000_0000_0000
    ensures MakeNapot(0, 0x40_0000_0000_0000) < 0x1_0000_0000_0000_0000
    ensures Napot(MakeNapot(BOOTROM_BASE, BOOTROM_SIZE)) == Region(BOOTROM_BASE, BOOTROM_BASE + BOOTROM_SIZE)
    ensures Napot(MakeNapot(OTP_BASE, OTP_SIZE)) == Region(OTP_BASE, OTP_BASE + OTP_SIZE)
    ensures Napot(MakeNapot(COUNTER_BASE, COUNTER_SIZE)) == Region(COUNTER_BASE, COUNTER_BASE + COUNTER_SIZE)
    ensures Napot(MakeNapot(0, 0x40_0000_0000_0000)) == Region(0, 0x40_0000_0000_0000)
  {
    hide Napot, Or, MakeNapot, Pow2;
    Pow2Values();
    Pow2Add(32, 16);
    Pow2Add(48, 6);
    NapotRoundTrip(BOOTROM_BASE, 16);
    NapotRoundTrip(OTP_BASE, 5);
    NapotRoundTrip(COUNTER_BASE, 3);
    NapotRoundTrip(0, 54);
    NapotBound(BOOTROM_BASE, BOOTROM_SIZE);
    NapotBound(OTP_BASE, OTP_SIZE);
    NapotBound(COUNTER_BASE, COUNTER_SIZE);
    NapotBound(0, 0x40_0000_0000_0000);
  }

  lemma NapotBound(base: nat, size: nat)
    requires 0 < size
    ensures MakeNapot(base, size) <= base / 4 + (size - 1) / 8
  {
    OrBound(base / 4, (size - 1) / 8);
  }

  lemma {:induction false} OrBound(a: nat, b: nat)
    ensures Or(a, b) <= a + b
  {
    if a == 0 || b == 0 {
    } else {
      OrBound(a / 2, b / 2);
    }
  }

  lemma ConfigBytes()
    ensures ByteOf(CFG0, 0) == LOCK_NAPOT_RX && ByteOf(CFG0, 1) == LOCK_NAPOT_NO_ACCESS
    ensures ByteOf(CFG0, 2) == LOCK_NAPOT_NO_ACCESS && ByteOf(CFG0, 3) == LOCK_NAPOT_RWX
    ensures ByteOf(CFG0, 4) == ByteOf(CFG0, 5) == ByteOf(CFG0, 6) == ByteOf(CFG0, 7) == LOCK_OFF
    ensures forall i: nat :: i < 8 ==> ByteOf(CFG2, i) == LOCK_OFF
  {
    Pow2Values();
    Pow2Add(32, 8);
    Pow2Add(32, 16);
    Pow2Add(32, 24);
    hide ByteOf, Pow2;
    ByteAt(CFG0, 0, 1, 0x80808080_9F9898, 0x9D, 0);
    ByteAt(CFG0, 1, 0x100, 0x80808080_9F98, 0x98, 0x9D);
    ByteAt(CFG0, 2, 0x1_0000, 0x80808080_9F, 0x98, 0x989D);
    ByteAt(CFG0, 3, 0x100_0000, 0x80808080, 0x9F, 0x98989D);
    ByteAt(CFG0, 4, 0x1_0000_0000, 0x808080, 0x80, 0x9F98989D);
    ByteAt(CFG0, 5, 0x100_0000_0000, 0x8080, 0x80, 0x80_9F98989D);
    ByteAt(CFG0, 6, 0x1_0000_0000_0000, 0x80, 0x80, 0x8080_9F98989D);
    ByteAt(CFG0, 7, 0x100_0000_0000_0000, 0, 0x80, 0x808080_9F98989D);
    ByteAt(CFG2, 0, 1, 0x80808080_808080, 0x80, 0);
    ByteAt(CFG2, 1, 0x100, 0x80808080_8080, 0x80, 0x80);
    ByteAt(CFG2, 2, 0x1_0000, 0x80808080_80, 0x80, 0x8080);
    ByteAt(CFG2, 3, 0x100_0000, 0x80808080, 0x80, 0x808080);
    ByteAt(CFG2, 4, 0x1_0000_0000, 0x808080, 0x80, 0x80808080);
    ByteAt(CFG2, 5, 0x100_0000_0000, 0x8080, 0x80, 0x80_80808080);
    ByteAt(CFG2, 6, 0x1_0000_0000_0000, 0x80, 0x80, 0x8080_80808080);
    ByteAt(CFG2, 7, 0x100_0000_0000_0000, 0, 0x80, 0x808080_80808080);
  }

  /** Byte i of a number given by what is above it, the byte, and what is below. */
  lemma ByteAt(v: u64, i: nat, w: nat, high: nat, b: u8, low: nat)
    requires i < 8 && low < w && v == (0x100 * high + b) * w + low
    requires w == Pow2(8 * i)
    ensures ByteOf(v, i) == b
  {
    hide Pow2;
    DivModUnique(v, 0x100 * high + b, low, w);
    DivModUnique(0x100 * high + b, high, b, 0x100);
  }

  /** After the locking and any later writes to the control registers, what is allowed is exactly this: the boot ROM may be
      read and executed, the fuses and the counter not touched at all, in any mode; below 2^54 everything else is open, and
      above it machine mode alone proceeds. An access that straddles a border is refused. */
  lemma AccessAfterLock(u: Unit, ws: seq<Csr>, who: Privilege, kind: Kind, a: nat, n: nat)
    requires IsLocked(u) && n > 0
    ensures Allowed(Writes(u, ws), who, kind, a, n) <==>
      (if a < 0x2_0000 && 0x1_0000 < a + n then 0x1_0000 <= a && a + n <= 0x2_0000 && kind != Store
       else if a < 0xF000_0020 && 0xF000_0000 < a + n then false
       else if a < 0xF000_1008 && 0xF000_1000 < a + n then false
       else if a < 0x40_0000_0000_0000 then a + n <= 0x40_0000_0000_0000
       else who == Machine)
  {
    hide Napot;
    LockedForever(u, ws);
    AboveOff(u, who, kind, a, n, 4);
    Entries(u);
    assert Allowed(u, who, kind, a, n, 3) == if Overlaps(EntryRegion(u, 3), a, n) then Contains(EntryRegion(u, 3), a, n) && Permits(u.cfg[3], who, kind) else who == Machine;
    assert Allowed(u, who, kind, a, n, 2) == if Overlaps(EntryRegion(u, 2), a, n) then false else Allowed(u, who, kind, a, n, 3);
    assert Allowed(u, who, kind, a, n, 1) == if Overlaps(EntryRegion(u, 1), a, n) then false else Allowed(u, who, kind, a, n, 2);
  }

  lemma Entries(u: Unit)
    requires IsLocked(u)
    ensures EntryRegion(u, 0) == Region(BOOTROM_BASE, BOOTROM_BASE + BOOTROM_SIZE)
    ensures EntryRegion(u, 1) == Region(OTP_BASE, OTP_BASE + OTP_SIZE)
    ensures EntryRegion(u, 2) == Region(COUNTER_BASE, COUNTER_BASE + COUNTER_SIZE)
    ensures EntryRegion(u, 3) == Region(0, 0x40_0000_0000_0000)
  {
  }

  /** Entries that are off decide nothing. */
  lemma {:induction false} AboveOff(u: Unit, who: Privilege, kind: Kind, a: nat, n: nat, i: nat)
    requires WellFormed(u) && i <= ENTRIES && forall j :: i <= j < ENTRIES ==> u.cfg[j] == LOCK_OFF
    ensures Allowed(u, who, kind, a, n, i) <==> who == Machine
    decreases ENTRIES - i
  {
    if i == ENTRIES {
    } else {
      AboveOff(u, who, kind, a, n, i + 1);
    }
  }
}
