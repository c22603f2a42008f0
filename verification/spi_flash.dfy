/** The SPI flash controller at register level: one call or application of a step is one clock edge. */
module SpiHardware {
  import opened Bits
  import opened Limbs

  datatype SlaveState = SIdle | SCommand | SAddress | SData | SIgnore

  datatype SlaveRegs = SlaveRegs(state: SlaveState, sclkPrev: bool, commandReg: nat, commandBits: nat,
                                 addressReg: nat, addressBits: nat, outputReg: nat, outputBits: nat,
                                 outputLoaded: bool, misoReg: bool)

  datatype MasterState = MIdle | SendSetup | SendRise | ReadSetup | ReadWait | ReadRise | Emit | Done

  datatype MasterRegs = MasterRegs(state: MasterState, txShift: nat, txBitsLeft: nat, rxByte: nat, rxBitCount: nat,
                                   bytesRemaining: nat, wordReg: nat, wordByteCount: nat, emitWord: nat,
                                   sclk: bool, mosi: bool, cs: bool, done: bool, error: bool)

  function Num1(b: bool): nat {
    if b then 1 else 0
  }

  /** A shift register of n bits takes in one more. */
  function ShiftIn(reg: nat, n: nat, b: bool): nat {
    (2 * reg + Num1(b)) % Pow2(n)
  }

  function NextAddress(flash: seq<u8>, address: nat): nat {
    if address == |flash| - 1 then 0 else (address + 1) % 0x100_0000
  }

  /** The storage behind the slave. Addresses that the transfers below never form read as zero. */
  function FlashAt(flash: seq<u8>, address: nat): u8 {
    if address < |flash| then flash[address] else 0
  }

  function SlaveReset(sclk: bool): SlaveRegs {
    SlaveRegs(SIdle, sclk, 0, 0, 0, 0, 0, 0, false, false)
  }

  /** One clock edge of the flash. */
  function SlaveStep(s: SlaveRegs, flash: seq<u8>, csN: bool, sclk: bool, mosi: bool): SlaveRegs {
    var rising, falling := !s.sclkPrev && sclk, s.sclkPrev && !sclk;
    var n := s.(sclkPrev := sclk);
    if csN then SlaveReset(sclk)
    else match s.state
      case SIdle => n.(state := SCommand)
      case SCommand =>
        if !rising then n
        else
          var nextCommand := ShiftIn(s.commandReg, 8, mosi);
          if s.commandBits == 7 then
            n.(commandReg := nextCommand, commandBits := 0, state := if nextCommand == 0x03 then SAddress else SIgnore)
          else n.(commandReg := nextCommand, commandBits := s.commandBits + 1)
      case SAddress =>
        if !rising then n
        else
          var nextAddr := ShiftIn(s.addressReg, 24, mosi);
          if s.addressBits == 23 then
            n.(addressReg := nextAddr, addressBits := 0, outputReg := FlashAt(flash, nextAddr), outputBits := 0,
               outputLoaded := false, state := SData)
          else n.(addressReg := nextAddr, addressBits := s.addressBits + 1)
      case SData =>
        if !falling then n
        else if !s.outputLoaded then n.(misoReg := s.outputReg / 0x80 % 2 == 1, outputLoaded := true)
        else if s.outputBits == 7 then
          var next := NextAddress(flash, s.addressReg);
          n.(addressReg := next, outputReg := FlashAt(flash, next), misoReg := FlashAt(flash, next) / 0x80 % 2 == 1, outputBits := 0)
        else
          n.(outputReg := ShiftIn(s.outputReg, 8, false), misoReg := s.outputReg / 0x40 % 2 == 1, outputBits := s.outputBits + 1)
      case SIgnore => n.(misoReg := false)
  }

  function Miso(s: SlaveRegs, csN: bool): bool {
    !csN && s.misoReg
  }

  /** One clock edge of the master. */
  function MasterStep(m: MasterRegs, start: bool, address: nat, lengthBytes: nat, ready: bool, miso: bool): MasterRegs {
    var n := if m.state == Done then m else m.(done := false);
    match m.state
    case MIdle =>
      if !start then n.(cs := true, sclk := false, mosi := false, error := false)
      else if lengthBytes == 0 then n.(cs := true, sclk := false, mosi := false, error := false, done := true, state := Done)
      else n.(cs := false, sclk := false, mosi := false, error := false, txShift := 0x0300_0000 + address % 0x100_0000,
              txBitsLeft := 32, rxByte := 0, rxBitCount := 0, bytesRemaining := lengthBytes, wordReg := 0, wordByteCount := 0,
              state := SendSetup)
    case SendSetup => n.(sclk := false, mosi := m.txShift / 0x8000_0000 % 2 == 1, state := SendRise)
    case SendRise =>
      n.(sclk := true, txShift := ShiftIn(m.txShift, 32, false), txBitsLeft := (m.txBitsLeft - 1) % 0x40,
         state := if m.txBitsLeft == 1 then ReadSetup else SendSetup)
    case ReadSetup => n.(sclk := false, mosi := false, state := ReadWait)
    case ReadWait => n.(sclk := false, mosi := false, state := ReadRise)
    case ReadRise =>
      var nextByte := ShiftIn(m.rxByte, 8, miso);
      if m.rxBitCount == 7 then
        var nextWord := Or(m.wordReg, Shl32(nextByte, 8 * m.wordByteCount));
        var lastByte := m.bytesRemaining == 1;
        var k := n.(sclk := true, emitWord := nextWord, bytesRemaining := (m.bytesRemaining - 1) % 0x1_0000_0000, rxByte := 0, rxBitCount := 0);
        if m.wordByteCount == 3 || lastByte then k.(wordReg := 0, wordByteCount := 0, state := Emit)
        else k.(wordReg := nextWord, wordByteCount := m.wordByteCount + 1, state := ReadSetup)
      else n.(sclk := true, rxByte := nextByte, rxBitCount := m.rxBitCount + 1, state := ReadSetup)
    case Emit =>
      if !ready then n.(sclk := false)
      else if m.bytesRemaining == 0 then n.(sclk := false, cs := true, done := true, state := Done)
      else n.(sclk := false, state := ReadSetup)
    case Done => n.(cs := true, sclk := false, state := if start then Done else MIdle)
  }

  /** What the processor does on the bus in one cycle. */
  datatype Bus = Quiet | WriteAddr(value: u32) | WriteLen(value: u32) | WriteCommand(value: u32) | ReadStatus | ReadData

  /** All registers of the controller. */
  datatype System = System(master: MasterRegs, slave: SlaveRegs, addrReg: u32, lenReg: u32, doneSticky: bool, fifo: seq<u32>)

  predicate Busy(m: MasterRegs) {
    m.state != MIdle && m.state != Done
  }

  predicate Starts(y: System, op: Bus) {
    op.WriteCommand? && !Busy(y.master) && op.value % 2 == 1
  }

  predicate Enqueues(y: System, depth: nat) {
    y.master.state == Emit && |y.fifo| < depth
  }

  predicate Dequeues(y: System, op: Bus) {
    op.ReadData? && y.fifo != []
  }

  function Status(y: System): u32 {
    Num1(Busy(y.master)) + 2 * Num1(y.doneSticky) + 4 * Num1(y.master.error) + 8 * Num1(y.fifo != [])
  }

  /** One clock edge of the whole controller. All registers change at once; where two rules write the done bit, the
      master's done signal comes last and wins. */
  function SystemStep(y: System, flash: seq<u8>, depth: nat, op: Bus): System {
    var m := y.master;
    var command := op.WriteCommand? && !Busy(m);
    System(
      MasterStep(m, Starts(y, op), y.addrReg, y.lenReg, |y.fifo| < depth, Miso(y.slave, m.cs)),
      SlaveStep(y.slave, flash, m.cs, m.sclk, m.mosi),
      if op.WriteAddr? then op.value else y.addrReg,
      if op.WriteLen? then op.value else y.lenReg,
      if m.done then true else if command && op.value % 4 != 0 then false else y.doneSticky,
      (if Dequeues(y, op) then y.fifo[1..] else y.fifo) + (if Enqueues(y, depth) then [m.emitWord % 0x1_0000_0000] else []))
  }
}
