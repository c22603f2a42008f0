/** How long a transfer takes. */
module SpiTiming {
  import opened Bits
  import opened Limbs
  import opened SpiHardware
  import opened SpiLockstep
  import opened SpiTransfer

  /** The words of a transfer. */
  function WordCount(x: Transfer): nat {
    (x.length + 3) / 4
  }

  /** How many bytes will have been received when the next word is complete. */
  function Boundary(m: MasterRegs, x: Transfer): nat {
    if 4 * (Emitted(m, x) + 1) < x.length then 4 * (Emitted(m, x) + 1) else x.length
  }

  /** Clock edges until the next word is in the fifo: two for each bit sent, three for each bit received, one to hand over. */
  function Due(m: MasterRegs, x: Transfer): int {
    match m.state
    case SendSetup => 2 * (32 - x.bits) + 24 * Boundary(m, x) + 1
    case SendRise => 2 * (32 - x.bits) - 1 + 24 * Boundary(m, x) + 1
    case ReadSetup => 3 * (8 * Boundary(m, x) - x.bits) + 1
    case ReadWait => 3 * (8 * Boundary(m, x) - x.bits)
    case ReadRise => 3 * (8 * Boundary(m, x) - x.bits) - 1
    case Emit => 1
    case _ => 0
  }

  /** Clock edges until the done bit is up, if the fifo never holds the master up. */
  function Left(m: MasterRegs, x: Transfer): int {
    if Busy(m) then Due(m, x) + 24 * (x.length - Boundary(m, x)) + (WordCount(x) - Emitted(m, x) - 1) + 1
    else if m.state == Done then 1 else 0
  }

  /** The fifo holds the master up in this cycle. */
  predicate Stalled(y: System, depth: nat) {
    y.master.state == Emit && |y.fifo| >= depth
  }

  /** An active transfer is at most 161 edges away from its next word, and still owes at least one. */
  lemma DueBounds(m: MasterRegs, s: SlaveRegs, flash: seq<u8>, x: Transfer)
    requires Active(m, s, flash, x)
    ensures 1 <= Due(m, x) <= 161 && Emitted(m, x) < WordCount(x) && (Due(m, x) == 1 <==> m.state == Emit)
  {
    hide Locked, Word, ShiftedOut, Shr, FlashByte, Message;
    var w := x.bits / 8;
  }

  /** An edge that hands over no word brings the next one closer by one. */
  lemma DueFalls(m: MasterRegs, s: SlaveRegs, flash: seq<u8>, x: Transfer, a: nat, n: nat, ready: bool)
    requires Active(m, s, flash, x) && m.state != Emit
    ensures var m', x' := MasterStep(m, false, a, n, ready, Miso(s, m.cs)), Next(m, x);
            Busy(m') && Due(m', x') == Due(m, x) - 1 && Emitted(m', x') == Emitted(m, x)
  {
    hide Locked, Word, ShiftedOut, Shr, FlashByte, Message, Or, Shl32, ShiftIn, Miso;
    if m.state == ReadRise {
      hide MasterStep;
      RiseDue(m, flash, x, a, n, ready, Miso(s, m.cs));
    } else {
      hide ReadRegs;
    }
  }

  lemma RiseDue(m: MasterRegs, flash: seq<u8>, x: Transfer, a: nat, n: nat, ready: bool, miso: bool)
    requires flash != [] && m.state == ReadRise && ReadRegs(m, flash, x)
    ensures var m' := MasterStep(m, false, a, n, ready, miso);
            Busy(m') && Due(m', Next(m, x)) == Due(m, x) - 1 && Emitted(m', Next(m, x)) == Emitted(m, x)
  {
    RiseKeeps(m, flash, x, a, n, ready, miso);
    hide Word, Shr, FlashByte, Or, Shl32, ShiftIn, Emitted;
  }

  /** Handing over a word takes one edge; what is left is the rest of the transfer. */
  lemma HandOver(m: MasterRegs, s: SlaveRegs, flash: seq<u8>, x: Transfer, a: nat, n: nat, miso: bool)
    requires Active(m, s, flash, x) && m.state == Emit
    ensures Left(MasterStep(m, false, a, n, true, miso), x) == Left(m, x) - 1
    ensures MasterStep(m, false, a, n, true, miso).state == if m.bytesRemaining == 0 then Done else ReadSetup
  {
    hide Locked, Word;
  }

  /** One clock edge brings the end closer by exactly one, unless the fifo is full when a word is due. */
  lemma Ticks(y: System, flash: seq<u8>, depth: nat, x: Transfer, taken: seq<u32>, op: Bus)
    requires Transferring(y, flash, x, taken) && (op.WriteCommand? ==> Busy(y.master))
    ensures Left(SystemStep(y, flash, depth, op).master, Next(y.master, x))
         == Left(y.master, x) - (if Stalled(y, depth) || Left(y.master, x) == 0 then 0 else 1)
  {
    hide Active, Words, Due, Boundary, SlaveStep, Miso, Emitted;
    var m := y.master;
    if Busy(m) {
      LeftPositive(m, y.slave, flash, x);
      hide MasterStep, Left;
      MasterTicks(m, y.slave, flash, x, y.addrReg, y.lenReg, |y.fifo| < depth);
    }
  }

  lemma MasterTicks(m: MasterRegs, s: SlaveRegs, flash: seq<u8>, x: Transfer, a: nat, n: nat, ready: bool)
    requires Active(m, s, flash, x) && Busy(m)
    ensures Left(MasterStep(m, false, a, n, ready, Miso(s, m.cs)), Next(m, x))
         == Left(m, x) - (if m.state == Emit && !ready then 0 else 1)
  {
    hide Active, Due, Boundary, SlaveStep, Miso, Emitted;
    var miso := Miso(s, m.cs);
    if m.state == Emit {
      if ready {
        HandOver(m, s, flash, x, a, n, miso);
      } else {
        Held(m, x, a, n, miso);
      }
    } else {
      hide MasterStep;
      DueFalls(m, s, flash, x, a, n, ready);
      SameBoundary(m, MasterStep(m, false, a, n, ready, miso), x, Next(m, x));
    }
  }

  lemma LeftPositive(m: MasterRegs, s: SlaveRegs, flash: seq<u8>, x: Transfer)
    requires Active(m, s, flash, x)
    ensures Left(m, x) >= 2
  {
    DueBounds(m, s, flash, x);
    hide Active, Due, Emitted;
  }

  lemma Held(m: MasterRegs, x: Transfer, a: nat, n: nat, miso: bool)
    requires m.state == Emit
    ensures Left(MasterStep(m, false, a, n, false, miso), x) == Left(m, x)
  {
  }

  lemma SameBoundary(m: MasterRegs, m': MasterRegs, x: Transfer, x': Transfer)
    requires x'.length == x.length && Emitted(m', x') == Emitted(m, x)
    ensures Boundary(m', x') == Boundary(m, x)
  {
    hide Emitted;
  }

  /** Nothing is left exactly when the done bit is up. */
  lemma LeftZero(y: System, flash: seq<u8>, x: Transfer, taken: seq<u32>)
    requires Transferring(y, flash, x, taken)
    ensures Left(y.master, x) >= 0 && (Left(y.master, x) == 0 <==> y.doneSticky)
  {
    hide Active, Words, Emitted, Due;
    if Busy(y.master) {
      LeftPositive(y.master, y.slave, flash, x);
    }
  }

  // Polling an empty fifo

  /** Edges until a poll of an empty fifo finds a word. */
  function Slack(y: System, x: Transfer): int {
    if y.fifo != [] || !Busy(y.master) then 0 else Due(y.master, x)
  }

  /** While words are missing and the fifo is empty, the next one is on its way, and never far. */
  lemma Coming(y: System, flash: seq<u8>, x: Transfer, taken: seq<u32>)
    requires Transferring(y, flash, x, taken)
    ensures 0 <= Slack(y, x) <= 161
    ensures y.fifo == [] && |taken| < WordCount(x) ==> Slack(y, x) > 0
  {
    hide Active, Emitted, Due;
    if Busy(y.master) {
      DueBounds(y.master, y.slave, flash, x);
    } else {
      assert |taken + y.fifo| == WordCount(x);
    }
  }

  /** An edge at which the fifo is empty brings the next word closer. */
  lemma Hungry(y: System, flash: seq<u8>, depth: nat, x: Transfer, taken: seq<u32>, op: Bus)
    requires Transferring(y, flash, x, taken) && y.fifo == [] && depth > 0 && !op.WriteCommand?
    ensures Slack(SystemStep(y, flash, depth, op), Next(y.master, x)) <= Slack(y, x)
    ensures Slack(y, x) > 0 ==> Slack(SystemStep(y, flash, depth, op), Next(y.master, x)) < Slack(y, x)
  {
    hide Active, Words, Due, Emitted, SlaveStep, Miso;
    var m := y.master;
    if Busy(m) {
      DueBounds(m, y.slave, flash, x);
      if m.state == Emit {
        assert SystemStep(y, flash, depth, op).fifo != [];
      } else {
        hide MasterStep;
        DueFalls(m, y.slave, flash, x, y.addrReg, y.lenReg, |y.fifo| < depth);
      }
    }
  }

  /** Once all words have been taken the done bit is up after one edge at most. */
  lemma AllOut(y: System, flash: seq<u8>, depth: nat, x: Transfer, taken: seq<u32>, op: Bus)
    requires Transferring(y, flash, x, taken) && |taken| >= WordCount(x) && !op.WriteCommand?
    ensures y.fifo == [] && SystemStep(y, flash, depth, op).doneSticky
  {
    hide Active, Emitted, MasterStep, SlaveStep, Miso;
    assert |taken + y.fifo| == |taken| + |y.fifo|;
    if Busy(y.master) {
      DueBounds(y.master, y.slave, flash, x);
    }
  }

  // Whole transfers

  /** The edges of a run at which the fifo holds the master up. */
  function Stalls(y: System, flash: seq<u8>, depth: nat, ops: seq<Bus>): (n: nat)
    ensures n <= |ops|
    decreases |ops|
  {
    if ops == [] then 0
    else (if Stalled(y, depth) then 1 else 0) + Stalls(SystemStep(y, flash, depth, ops[0]), flash, depth, ops[1..])
  }

  lemma {:induction false} RunTime(y: System, flash: seq<u8>, depth: nat, x: Transfer, taken: seq<u32>, ops: seq<Bus>)
    returns (x': Transfer)
    requires Transferring(y, flash, x, taken) && forall i :: 0 <= i < |ops| ==> !ops[i].WriteCommand?
    ensures Transferring(Run(y, flash, depth, ops), flash, x', taken + Taken(y, flash, depth, ops))
    ensures var n := Left(y.master, x) - (|ops| - Stalls(y, flash, depth, ops));
            Left(Run(y, flash, depth, ops).master, x') == if n > 0 then n else 0
    decreases |ops|
  {
    hide Transferring, SystemStep, Left, Stalled;
    LeftZero(y, flash, x, taken);
    if ops == [] {
      x' := x;
      assert taken + [] == taken;
    } else {
      var y' := SystemStep(y, flash, depth, ops[0]);
      Tracks(y, flash, depth, x, taken, ops[0]);
      Ticks(y, flash, depth, x, taken, ops[0]);
      x' := RunTime(y', flash, depth, Next(y.master, x), TakenNext(y, taken, ops[0]), ops[1..]);
      assert TakenNext(y, taken, ops[0]) + Taken(y', flash, depth, ops[1..]) == taken + Taken(y, flash, depth, ops);
    }
  }

  /** The edges that a transfer of n bytes takes from its start command to the done bit: 64 for the command, 24 a byte, one
      a word, one to report. */
  function Duration(n: nat): nat {
    if n == 0 then 1 else 65 + 24 * n + (n + 3) / 4
  }

  /** A transfer is done after exactly as many edges as its duration, not counting those at which a full fifo holds it up. */
  lemma ExactTime(y: System, flash: seq<u8>, depth: nat, start: Bus, ops: seq<Bus>)
    requires Quiescent(y) && !y.master.done && start.WriteCommand? && start.value % 2 == 1
    requires y.addrReg < |flash| <= 0x100_0000 && forall i :: 0 <= i < |ops| ==> !ops[i].WriteCommand?
    ensures var y' := SystemStep(y, flash, depth, start);
            Run(y', flash, depth, ops).doneSticky <==> |ops| - Stalls(y', flash, depth, ops) >= Duration(y.lenReg)
  {
    hide *;
    Begins(y, flash, depth, start);
    var y', x := SystemStep(y, flash, depth, start), Transfer(y.addrReg, y.lenReg, 0);
    LeftAtStart(y, flash, depth, start);
    var x' := RunTime(y', flash, depth, x, [], ops);
    LeftZero(Run(y', flash, depth, ops), flash, x', [] + Taken(y', flash, depth, ops));
  }

  lemma LeftAtStart(y: System, flash: seq<u8>, depth: nat, start: Bus)
    requires Quiescent(y) && start.WriteCommand? && start.value % 2 == 1
    ensures Left(SystemStep(y, flash, depth, start).master, Transfer(y.addrReg, y.lenReg, 0)) == Duration(y.lenReg)
  {
    hide SlaveStep;
  }

  // A bus that reads in every cycle

  /** A word waits for one cycle only. */
  predicate Fed(y: System) {
    |y.fifo| <= 1 && (y.fifo != [] ==> y.master.state == ReadSetup || y.master.state == Done)
  }

  lemma FedNext(y: System, flash: seq<u8>, depth: nat)
    requires Fed(y) && depth > 0
    ensures Fed(SystemStep(y, flash, depth, ReadData)) && !Stalled(y, depth)
  {
    hide SlaveStep, Miso;
  }

  lemma {:induction false} NeverStalled(y: System, flash: seq<u8>, depth: nat, ops: seq<Bus>)
    requires Fed(y) && depth > 0 && forall i :: 0 <= i < |ops| ==> ops[i] == ReadData
    ensures Stalls(y, flash, depth, ops) == 0 && Fed(Run(y, flash, depth, ops))
    decreases |ops|
  {
    hide Fed, SystemStep, Stalled;
    if ops != [] {
      FedNext(y, flash, depth);
      NeverStalled(SystemStep(y, flash, depth, ops[0]), flash, depth, ops[1..]);
    }
  }

  /** Read in every cycle, a transfer of n bytes is over after exactly its duration, and has then delivered all its words. */
  lemma ReadingDelivers(y: System, flash: seq<u8>, depth: nat, start: Bus, ops: seq<Bus>)
    requires Quiescent(y) && !y.master.done && start.WriteCommand? && start.value % 2 == 1 && depth > 0
    requires y.addrReg < |flash| <= 0x100_0000 && forall i :: 0 <= i < |ops| ==> ops[i] == ReadData
    ensures var y' := SystemStep(y, flash, depth, start);
            && (Run(y', flash, depth, ops).doneSticky <==> |ops| >= Duration(y.lenReg))
            && (|ops| >= Duration(y.lenReg) ==> Taken(y', flash, depth, ops) == Words(flash, y.addrReg, y.lenReg))
  {
    hide *;
    var y' := SystemStep(y, flash, depth, start);
    ExactTime(y, flash, depth, start, ops);
    StartsFed(y, flash, depth, start);
    NeverStalled(y', flash, depth, ops);
    Refinement(y, flash, depth, start, ops);
    Begins(y, flash, depth, start);
    var x' := RunTracks(y', flash, depth, Transfer(y.addrReg, y.lenReg, 0), [], ops);
    Outcome(Run(y', flash, depth, ops), flash, x', [] + Taken(y', flash, depth, ops));
    RestIsEmpty(Run(y', flash, depth, ops));
  }

  lemma StartsFed(y: System, flash: seq<u8>, depth: nat, start: Bus)
    requires Quiescent(y)
    ensures Fed(SystemStep(y, flash, depth, start))
  {
    hide SlaveStep, MasterStep;
  }

  lemma RestIsEmpty(y: System)
    requires Fed(y)
    ensures y.master.state == MIdle ==> y.fifo == []
  {
  }
}
