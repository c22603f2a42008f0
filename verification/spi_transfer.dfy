/** Whole transfers through the controller: what any schedule of bus accesses reads out of it. */
module SpiTransfer {
  import opened Bits
  import opened Limbs
  import opened SpiHardware
  import opened SpiLockstep

  /** The controller is waiting for a command. */
  predicate Quiescent(y: System) {
    y.master.state == MIdle && y.master.cs && !y.master.sclk && !y.master.error && y.fifo == []
  }

  /** Between a start command and the done bit: the words taken from the fifo and those still in it are a prefix of
      the transfer, and all of it once the master is done. */
  predicate Transferring(y: System, flash: seq<u8>, x: Transfer, taken: seq<u32>) {
    && x.address < |flash| <= 0x100_0000 && x.length < 0x1_0000_0000 && !y.master.error
    && if Busy(y.master) then
         && Active(y.master, y.slave, flash, x) && !y.doneSticky
         && Emitted(y.master, x) <= (x.length + 3) / 4
         && taken + y.fifo == Words(flash, x.address, x.length)[..Emitted(y.master, x)]
       else
         && y.master.cs && !y.master.sclk && taken + y.fifo == Words(flash, x.address, x.length)
         && if y.master.state == Done then y.master.done && !y.doneSticky else y.doneSticky
  }

  /** The word on offer is the next one of the transfer. */
  lemma EmitsNext(m: MasterRegs, s: SlaveRegs, flash: seq<u8>, x: Transfer)
    requires Active(m, s, flash, x) && m.state == Emit
    ensures Emitted(m, x) < (x.length + 3) / 4 && m.emitWord == Words(flash, x.address, x.length)[Emitted(m, x)]
    ensures m.emitWord < 0x1_0000_0000
    ensures m.bytesRemaining == 0 ==> Emitted(m, x) + 1 == (x.length + 3) / 4
  {
    hide Locked, Word;
    var w := x.bits / 8;
    WordBound(flash, x.address, (w - 1) / 4, (w - 1) % 4 + 1);
    Pow2Values();
    Pow2Mono(8 * ((w - 1) % 4 + 1), 32);
    hide Pow2;
    if w % 4 == 0 {
      assert (w - 1) / 4 == w / 4 - 1 && (w - 1) % 4 == 3;
    } else {
      assert (w - 1) / 4 == w / 4 && (w - 1) % 4 == w % 4 - 1;
    }
  }

  /** Only the hand-over of a word changes how many have been handed over. */
  lemma EmittedSteps(m: MasterRegs, s: SlaveRegs, flash: seq<u8>, x: Transfer, a: nat, n: nat, ready: bool)
    requires Active(m, s, flash, x) && !(m.state == Emit && ready && m.bytesRemaining == 0)
    requires Emitted(m, x) <= (x.length + 3) / 4
    ensures var m', x' := MasterStep(m, false, a, n, ready, Miso(s, m.cs)), Next(m, x);
            && Emitted(m', x') == Emitted(m, x) + (if m.state == Emit && ready then 1 else 0) <= (x.length + 3) / 4
            && Busy(m')
  {
    hide Locked, Word, ShiftedOut, Shr, FlashByte, Or, Shl32, ShiftIn, Message, Words, ReadRegs, Miso;
    if m.state == Emit {
      EmitsNext(m, s, flash, x);
    } else if m.state == ReadRise {
      hide MasterStep;
      RiseKeeps(m, flash, x, a, n, ready, Miso(s, m.cs));
    }
  }

  lemma RiseKeeps(m: MasterRegs, flash: seq<u8>, x: Transfer, a: nat, n: nat, ready: bool, miso: bool)
    requires flash != [] && m.state == ReadRise && ReadRegs(m, flash, x)
    ensures var m' := MasterStep(m, false, a, n, ready, miso);
            Emitted(m', Next(m, x)) == Emitted(m, x) && Busy(m')
  {
    hide Word, Shr, FlashByte, Or, Shl32, ShiftIn;
    var w := x.bits / 8;
    if x.bits % 8 == 7 {
      assert (x.bits + 1) / 8 == w + 1 && (x.bits + 1) % 8 == 0;
      assert w % 4 == 3 || (w + 1) / 4 == w / 4;
    } else {
      assert (x.bits + 1) / 8 == w;
    }
  }

  function TakenNext(y: System, taken: seq<u32>, op: Bus): seq<u32> {
    if Dequeues(y, op) then taken + [y.fifo[0]] else taken
  }

  /** Every clock edge, whatever happens on the bus, except a command to a master that is not busy, keeps the transfer on track. */
  lemma Tracks(y: System, flash: seq<u8>, depth: nat, x: Transfer, taken: seq<u32>, op: Bus)
    requires Transferring(y, flash, x, taken) && (op.WriteCommand? ==> Busy(y.master))
    ensures Transferring(SystemStep(y, flash, depth, op), flash, Next(y.master, x), TakenNext(y, taken, op))
  {
    hide Active, Words, Emitted, MasterStep, SlaveStep, Miso;
    var m, y' := y.master, SystemStep(y, flash, depth, op);
    var ready := |y.fifo| < depth;
    var enq := if Enqueues(y, depth) then [m.emitWord % 0x1_0000_0000] else [];
    assert TakenNext(y, taken, op) + y'.fifo == taken + y.fifo + enq;
    ActiveFacts(y, flash, x);
    if Busy(m) {
      if m.state == Emit {
        EmitsNext(m, y.slave, flash, x);
      }
      if m.state == Emit && ready && m.bytesRemaining == 0 {
        LastWord(m, y.addrReg, y.lenReg, Miso(y.slave, m.cs));
      } else {
        Clocked(m, y.slave, flash, x, y.addrReg, y.lenReg, ready);
        EmittedSteps(m, y.slave, flash, x, y.addrReg, y.lenReg, ready);
        ActiveFacts(y', flash, Next(m, x));
      }
    } else {
      Rests(m, y.addrReg, y.lenReg, ready, Miso(y.slave, m.cs));
    }
  }

  lemma ActiveFacts(y: System, flash: seq<u8>, x: Transfer)
    ensures Active(y.master, y.slave, flash, x) ==> !y.master.done && !y.master.error && !y.master.cs
    ensures Next(y.master, x).address == x.address && Next(y.master, x).length == x.length
    ensures !Busy(y.master) ==> Next(y.master, x) == x
  {
  }

  lemma LastWord(m: MasterRegs, a: nat, n: nat, miso: bool)
    requires m.state == Emit && m.bytesRemaining == 0
    ensures var m' := MasterStep(m, false, a, n, true, miso);
            m'.state == Done && m'.done && m'.cs && !m'.sclk && m'.error == m.error
  {
  }

  lemma Rests(m: MasterRegs, a: nat, n: nat, ready: bool, miso: bool)
    requires !Busy(m) && m.cs && !m.sclk && !m.error
    ensures var m' := MasterStep(m, false, a, n, ready, miso);
            m'.state == MIdle && m'.cs && !m'.sclk && !m'.error && (m.state == MIdle ==> !m'.done)
  {
  }

  /** A start command in the idle state begins a transfer. */
  lemma Begins(y: System, flash: seq<u8>, depth: nat, op: Bus)
    requires Quiescent(y) && !y.master.done && op.WriteCommand? && op.value % 2 == 1
    requires y.addrReg < |flash| <= 0x100_0000
    ensures Transferring(SystemStep(y, flash, depth, op), flash, Transfer(y.addrReg, y.lenReg, 0), [])
  {
    var y' := SystemStep(y, flash, depth, op);
    Small(y.addrReg, 0x100_0000);
    assert y.lenReg > 0 ==> y'.slave == SlaveReset(false);
    assert Packed(flash, y.addrReg, 0) == [];
    hide Word, Shr, ShiftIn, Bit;
  }

  // Runs

  /** The controller after a sequence of clock edges, and the words that the bus has taken out of it. */
  function Run(y: System, flash: seq<u8>, depth: nat, ops: seq<Bus>): System
    decreases |ops|
  {
    if ops == [] then y else Run(SystemStep(y, flash, depth, ops[0]), flash, depth, ops[1..])
  }

  function Taken(y: System, flash: seq<u8>, depth: nat, ops: seq<Bus>): seq<u32>
    decreases |ops|
  {
    if ops == [] then []
    else (if Dequeues(y, ops[0]) then [y.fifo[0]] else []) + Taken(SystemStep(y, flash, depth, ops[0]), flash, depth, ops[1..])
  }

  /** No schedule of bus accesses and stalls, short of another command, takes a transfer off its track. */
  lemma {:induction false} RunTracks(y: System, flash: seq<u8>, depth: nat, x: Transfer, taken: seq<u32>, ops: seq<Bus>)
    returns (x': Transfer)
    requires Transferring(y, flash, x, taken) && forall i :: 0 <= i < |ops| ==> !ops[i].WriteCommand?
    ensures Transferring(Run(y, flash, depth, ops), flash, x', taken + Taken(y, flash, depth, ops))
    ensures x'.address == x.address && x'.length == x.length
    decreases |ops|
  {
    hide Transferring, SystemStep;
    if ops == [] {
      x' := x;
      assert taken + [] == taken;
    } else {
      var y' := SystemStep(y, flash, depth, ops[0]);
      Tracks(y, flash, depth, x, taken, ops[0]);
      ActiveFacts(y, flash, x);
      x' := RunTracks(y', flash, depth, Next(y.master, x), TakenNext(y, taken, ops[0]), ops[1..]);
      assert TakenNext(y, taken, ops[0]) + Taken(y', flash, depth, ops[1..]) == taken + Taken(y, flash, depth, ops);
    }
  }

  /** The refinement: after a start, any schedule reads a prefix of the words that the flash holds from the start address
      on, and all of them once the done bit is up and the fifo is empty. */
  lemma Refinement(y: System, flash: seq<u8>, depth: nat, start: Bus, ops: seq<Bus>)
    requires Quiescent(y) && !y.master.done && start.WriteCommand? && start.value % 2 == 1
    requires y.addrReg < |flash| <= 0x100_0000 && forall i :: 0 <= i < |ops| ==> !ops[i].WriteCommand?
    ensures var y' := SystemStep(y, flash, depth, start);
            var end, taken := Run(y', flash, depth, ops), Taken(y', flash, depth, ops);
            && taken <= Words(flash, y.addrReg, y.lenReg)
            && (end.doneSticky && end.fifo == [] ==> taken == Words(flash, y.addrReg, y.lenReg))
  {
    hide *;
    Begins(y, flash, depth, start);
    var y' := SystemStep(y, flash, depth, start);
    var x' := RunTracks(y', flash, depth, Transfer(y.addrReg, y.lenReg, 0), [], ops);
    var taken := Taken(y', flash, depth, ops);
    assert [] + taken == taken;
    Outcome(Run(y', flash, depth, ops), flash, x', taken);
  }

  /** What a transfer on its track has delivered. */
  lemma Outcome(y: System, flash: seq<u8>, x: Transfer, taken: seq<u32>)
    requires Transferring(y, flash, x, taken)
    ensures taken <= Words(flash, x.address, x.length)
    ensures y.doneSticky && y.fifo == [] ==> taken == Words(flash, x.address, x.length)
    ensures y.doneSticky ==> taken + y.fifo == Words(flash, x.address, x.length) && y.master.state == MIdle
    ensures !y.master.error && (y.master.state == MIdle ==> y.master.cs && !y.master.sclk)
  {
    hide Active, Words, Emitted;
  }

  /** A start command that meets the master in its done state is lost: it restarts nothing, and the done bit comes up as if it had run. */
  lemma StartWhileDone(y: System, flash: seq<u8>, depth: nat, start: Bus)
    requires y.master.state == Done && y.master.done && start.WriteCommand? && start.value % 2 == 1
    ensures var y' := SystemStep(y, flash, depth, start); y'.master.state == Done && y'.master.cs && y'.doneSticky
  {
  }
}
