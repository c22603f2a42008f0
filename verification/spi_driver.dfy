/** The code that starts a transfer, polls the controller and unpacks the words. */
module SpiDriver {
  import opened Arith
  import opened Bits
  import opened Limbs
  import opened SpiHardware
  import opened SpiLockstep
  import opened SpiTransfer
  import opened SpiTiming

  /** Without a command an idle controller stays idle. */
  lemma Waits(y: System, flash: seq<u8>, depth: nat, op: Bus)
    requires Quiescent(y) && (op.WriteCommand? ==> op.value % 2 == 0)
    ensures Quiescent(SystemStep(y, flash, depth, op)) && !SystemStep(y, flash, depth, op).master.done
    ensures SystemStep(y, flash, depth, op).addrReg == (if op.WriteAddr? then op.value else y.addrReg)
    ensures SystemStep(y, flash, depth, op).lenReg == (if op.WriteLen? then op.value else y.lenReg)
  {
  }

  /** The bits of the status word. */
  lemma StatusBits(y: System)
    ensures var v := Status(y);
            && v < 0x10 && (v / 8 % 2 == 1 <==> y.fifo != []) && (v / 4 % 2 == 1 <==> y.master.error)
            && (v / 2 % 2 == 1 <==> y.doneSticky) && (v % 2 == 1 <==> Busy(y.master))
  {
  }

  /** Reading the status loses no word and no done bit. */
  lemma Looks(y: System, flash: seq<u8>, depth: nat, op: Bus)
    requires op.Quiet? || op.ReadStatus?
    ensures y.fifo <= SystemStep(y, flash, depth, op).fifo
    ensures y.doneSticky ==> SystemStep(y, flash, depth, op).doneSticky
    ensures !Dequeues(y, op)
  {
  }

  const MAX_SPIN: nat := 10000000

  /** The controller in front of one flash. */
  class Controller {
    const flash: seq<u8>
    const depth: nat
    var master: MasterRegs
    var slave: SlaveRegs
    var addrReg: u32
    var lenReg: u32
    var doneSticky: bool
    var fifo: seq<u32>

    function State(): System
      reads this
    {
      System(master, slave, addrReg, lenReg, doneSticky, fifo)
    }

    /** Out of reset. */
    constructor (flash: seq<u8>, depth: nat)
      requires depth > 0
      ensures this.flash == flash && this.depth == depth && Quiescent(State()) && !doneSticky
    {
      this.flash, this.depth := flash, depth;
      master := MasterRegs(MIdle, 0, 0, 0, 0, 0, 0, 0, 0, false, false, true, false, false);
      slave := SlaveReset(false);
      addrReg, lenReg, doneSticky, fifo := 0, 4, false, [];
    }

    /** One clock edge: all registers change at once. A bus read returns what the registers held before it. */
    method Clock(op: Bus) returns (value: u32)
      modifies this
      ensures State() == SystemStep(old(State()), flash, depth, op)
      ensures op.ReadStatus? ==> value == Status(old(State()))
      ensures op.ReadData? && old(fifo) != [] ==> value == old(fifo[0])
    {
      hide MasterStep, SlaveStep, Miso;
      value := if op.ReadStatus? then Status(State()) else if op.ReadData? && fifo != [] then fifo[0] else 0;
      var commanded := op.WriteCommand? && !Busy(master);
      var taken := if op.ReadData? && fifo != [] then fifo[1..] else fifo;
      var added := if master.state == Emit && |fifo| < depth then [master.emitWord % 0x1_0000_0000] else [];
      doneSticky := if master.done then true else if commanded && op.value % 4 != 0 then false else doneSticky;
      master, slave, fifo :=
        MasterStep(master, commanded && op.value % 2 == 1, addrReg, lenReg, |fifo| < depth, Miso(slave, master.cs)),
        SlaveStep(slave, flash, master.cs, master.sclk, master.mosi),
        taken + added;
      if op.WriteAddr? {
        addrReg := op.value;
      }
      if op.WriteLen? {
        lenReg := op.value;
      }
    }

    /** An access to a register after some cycles without any, while nothing is being transferred. */
    method Configure(op: Bus, wait: nat)
      requires Quiescent(State()) && (op.WriteAddr? || op.WriteLen? || op == WriteCommand(2))
      modifies this
      ensures Quiescent(State()) && !master.done
      ensures addrReg == (if op.WriteAddr? then op.value else old(addrReg))
      ensures lenReg == (if op.WriteLen? then op.value else old(lenReg))
    {
      for i := 0 to wait
        invariant Quiescent(State()) && addrReg == old(addrReg) && lenReg == old(lenReg)
      {
        Waits(State(), flash, depth, Quiet);
        var _ := Clock(Quiet);
      }
      Waits(State(), flash, depth, op);
      var _ := Clock(op);
    }

    method Start(wait: nat)
      requires Quiescent(State()) && !master.done && addrReg < |flash| <= 0x100_0000
      modifies this
      ensures Transferring(State(), flash, Transfer(old(addrReg), old(lenReg), 0), [])
    {
      hide Transferring;
      for i := 0 to wait
        invariant Quiescent(State()) && !master.done && addrReg == old(addrReg) && lenReg == old(lenReg)
      {
        Waits(State(), flash, depth, Quiet);
        var _ := Clock(Quiet);
      }
      Begins(State(), flash, depth, WriteCommand(1));
      var _ := Clock(WriteCommand(1));
    }

    /** Cycles of a transfer in which the bus is silent. */
    method Wait(wait: nat, ghost x: Transfer, ghost taken: seq<u32>) returns (ghost x': Transfer)
      requires Transferring(State(), flash, x, taken) && depth > 0
      modifies this
      ensures Transferring(State(), flash, x', taken) && x'.address == x.address && x'.length == x.length
      ensures old(fifo) <= fifo && (old(doneSticky) ==> doneSticky)
      ensures fifo == [] ==> Slack(State(), x') <= Slack(old(State()), x)
    {
      hide *;
      x' := x;
      for i := 0 to wait
        invariant Transferring(State(), flash, x', taken) && x'.address == x.address && x'.length == x.length
        invariant old(fifo) <= fifo && (old(doneSticky) ==> doneSticky)
        invariant fifo == [] ==> Slack(State(), x') <= Slack(old(State()), x)
      {
        var _, x'' := Tick(Quiet, x', taken);
        x' := x'';
      }
    }

    /** One cycle of a transfer that takes nothing from the fifo. */
    method Tick(op: Bus, ghost x: Transfer, ghost taken: seq<u32>) returns (value: u32, ghost x': Transfer)
      requires Transferring(State(), flash, x, taken) && depth > 0 && (op.Quiet? || op.ReadStatus?)
      modifies this
      ensures Transferring(State(), flash, x', taken) && x'.address == x.address && x'.length == x.length
      ensures old(fifo) <= fifo && (old(doneSticky) ==> doneSticky)
      ensures op.ReadStatus? ==> value == Status(old(State()))
      ensures old(fifo) == [] ==> Slack(State(), x') <= Slack(old(State()), x)
      ensures old(fifo) == [] && |taken| < WordCount(x) ==> Slack(State(), x') < Slack(old(State()), x)
      ensures |taken| >= WordCount(x) ==> doneSticky
    {
      hide *;
      ghost var y := State();
      StateParts();
      Looks(y, flash, depth, op);
      Tracks(y, flash, depth, x, taken, op);
      NothingTaken(y, taken, op);
      ActiveFacts(y, flash, x);
      Coming(y, flash, x, taken);
      if fifo == [] {
        Hungry(y, flash, depth, x, taken, op);
      }
      if |taken| >= WordCount(x) {
        AllOut(y, flash, depth, x, taken, op);
      }
      x' := Next(y.master, x);
      value := Clock(op);
      StateParts();
    }

    lemma StateParts()
      ensures State().fifo == fifo && State().master == master && State().doneSticky == doneSticky
    {
    }

    /** Polls the status register. While words are missing, a poll that finds none brings the next one closer; once all have
        been taken, at most one poll misses the done bit. */
    method ReadStatusRegister(wait: nat, ghost x: Transfer, ghost taken: seq<u32>) returns (value: u32, ghost x': Transfer)
      requires Transferring(State(), flash, x, taken) && depth > 0
      modifies this
      ensures Transferring(State(), flash, x', taken) && x'.address == x.address && x'.length == x.length
      ensures value / 4 % 2 == 0 && (value / 8 % 2 == 1 ==> fifo != [])
      ensures value / 8 % 2 == 0 && |taken| < WordCount(x) ==> Slack(State(), x') < Slack(old(State()), x)
      ensures value / 2 % 2 == 1 ==> doneSticky
      ensures |taken| >= WordCount(x) ==> doneSticky && (old(doneSticky) ==> value / 2 % 2 == 1)
    {
      hide *;
      x' := Wait(wait, x, taken);
      ghost var y := State();
      StateParts();
      StatusBits(y);
      Outcome(y, flash, x', taken);
      SameCount(x, x');
      value, x' := Tick(ReadStatus, x', taken);
      StateParts();
    }

    /** Takes one word out of the fifo. */
    method ReadDataRegister(wait: nat, ghost x: Transfer, ghost taken: seq<u32>) returns (value: u32, ghost x': Transfer)
      requires Transferring(State(), flash, x, taken) && fifo != [] && depth > 0
      modifies this
      ensures Transferring(State(), flash, x', taken + [value]) && x'.address == x.address && x'.length == x.length
    {
      hide *;
      x' := Wait(wait, x, taken);
      ghost var y := State();
      StateParts();
      Tracks(y, flash, depth, x', taken, ReadData);
      WordTaken(y, taken);
      ActiveFacts(y, flash, x');
      x' := Next(y.master, x');
      value := Clock(ReadData);
    }
  }

  lemma SameCount(x: Transfer, x': Transfer)
    requires x.length == x'.length
    ensures WordCount(x) == WordCount(x') == (x.length + 3) / 4
  {
  }

  lemma NothingTaken(y: System, taken: seq<u32>, op: Bus)
    ensures (op.Quiet? || op.ReadStatus?) ==> TakenNext(y, taken, op) == taken && !op.WriteCommand?
  {
  }

  lemma WordTaken(y: System, taken: seq<u32>)
    ensures y.fifo != [] ==> TakenNext(y, taken, ReadData) == taken + [y.fifo[0]]
  {
  }

  /** Byte j of a word is the byte of the flash that was packed there. */
  lemma {:induction false} WordByte(flash: seq<u8>, a: nat, i: nat, n: nat, j: nat)
    requires flash != [] && j < n
    ensures Shr(Word(flash, a, i, n), 8 * j) % 0x100 == FlashByte(flash, a, 4 * i + j)
  {
    var rest := Split(flash, a, i, n, j);
    WordBound(flash, a, i, j);
    var p, b, low := Pow2(8 * j), FlashByte(flash, a, 4 * i + j), Word(flash, a, i, j);
    DivModUnique(Word(flash, a, i, n), b + 0x100 * rest, low, p);
    DivModUnique(b + 0x100 * rest, rest, b, 0x100);
  }

  lemma {:induction false} Split(flash: seq<u8>, a: nat, i: nat, n: nat, j: nat) returns (rest: nat)
    requires flash != [] && j < n
    ensures Word(flash, a, i, n) == (FlashByte(flash, a, 4 * i + j) + 0x100 * rest) * Pow2(8 * j) + Word(flash, a, i, j)
  {
    hide FlashByte, Pow2;
    if n == j + 1 {
      rest := 0;
    } else {
      var r := Split(flash, a, i, n - 1, j);
      var m := 8 * (n - 1) - 8 * (j + 1);
      Pow2Add(8 * (j + 1), m);
      Pow2Add(8 * j, 8);
      Pow2Values();
      var c, b, p := FlashByte(flash, a, 4 * i + n - 1), FlashByte(flash, a, 4 * i + j), Pow2(8 * j);
      rest := r + c * Pow2(m);
      assert 8 * (j + 1) + m == 8 * (n - 1) && 8 * j + 8 == 8 * (j + 1);
      Regroup(b, r, c, Pow2(m), p);
    }
  }

  lemma Regroup(b: int, r: int, c: int, q: int, p: int)
    ensures (b + 0x100 * r) * p + c * (p * 0x100 * q) == (b + 0x100 * (r + c * q)) * p
  {
  }

  /** The bytes of the buffer below n are those of the flash. */
  predicate Filled(buffer: seq<u8>, flash: seq<u8>, a: nat, n: nat) {
    flash != [] && n <= |buffer| && forall k :: 0 <= k < n ==> buffer[k] == FlashByte(flash, a, k)
  }

  /** The words not yet unpacked. */
  lemma NextWord(y: System, flash: seq<u8>, x: Transfer, taken: seq<u32>, word: u32)
    requires Transferring(y, flash, x, taken + [word])
    ensures |taken| < (x.length + 3) / 4 && word == Words(flash, x.address, x.length)[|taken|]
  {
    Outcome(y, flash, x, taken + [word]);
    hide Transferring, Words;
    assert (taken + [word])[|taken|] == word;
  }

  /** Byte j of word i of a transfer is byte 4 i + j, if the transfer is that long. */
  lemma WordOf(flash: seq<u8>, a: nat, length: nat, i: nat, j: nat)
    requires flash != [] && j < 4 && 4 * i + j < length
    ensures Shr(Words(flash, a, length)[i], 8 * j) % 0x100 == FlashByte(flash, a, 4 * i + j)
  {
    WordByte(flash, a, i, if i < length / 4 then 4 else length % 4, j);
    hide Word, Shr, FlashByte;
  }

  /** Copies the words of a transfer into the buffer as they arrive. It never gives up: the error bit is never
      set, and 162 polls in a row cannot find the fifo empty. */
  method ReadFlashWords(c: Controller, wait: nat -> nat, buffer: array<u8>, totalBytes: u32, ghost x: Transfer)
    returns (ok: bool, ghost x': Transfer)
    requires x.length == totalBytes <= buffer.Length && Transferring(c.State(), c.flash, x, []) && c.depth > 0
    modifies c, buffer
    ensures ok && Quiescent(c.State()) && Filled(buffer[..], c.flash, x.address, totalBytes)
    ensures buffer[totalBytes..] == old(buffer[totalBytes..])
  {
    hide *;
    var bytesRead, spin, t := 0, 0, 0;
    var failed := false;
    ghost var taken: seq<u32> := [];
    x' := x;
    FilledStart(c.State(), buffer[..], c.flash, x);
    Coming(c.State(), c.flash, x, taken);
    SpinLimit();
    while bytesRead < totalBytes && !failed
      invariant bytesRead <= totalBytes && !failed && 0 <= spin <= 161 - Slack(c.State(), x') <= 161
      invariant Transferring(c.State(), c.flash, x', taken) && x'.address == x.address && x'.length == x.length
      invariant 4 * |taken| == bytesRead || (bytesRead == totalBytes && |taken| == (totalBytes + 3) / 4)
      invariant Filled(buffer[..], c.flash, x.address, bytesRead)
      invariant buffer[totalBytes..] == old(buffer[totalBytes..])
      decreases totalBytes - bytesRead, MAX_SPIN - spin
    {
      var status;
      SameCount(x', x);
      status, x' := c.ReadStatusRegister(wait(t), x', taken);
      t := t + 1;
      Coming(c.State(), c.flash, x', taken);
      failed := status / 4 % 2 == 1;
      if status / 8 % 2 == 0 {
        spin := spin + 1;
        failed := failed || spin > MAX_SPIN;
      } else {
        spin := 0;
        var word;
        word, x' := c.ReadDataRegister(wait(t), x', taken);
        t := t + 1;
        NextWord(c.State(), c.flash, x', taken, word);
        bytesRead := Unpack(buffer, bytesRead, totalBytes, word, c.flash, x', |taken|);
        taken := taken + [word];
        Coming(c.State(), c.flash, x', taken);
      }
    }
    spin := 0;
    var done := false;
    while !done && !failed
      invariant !failed && spin <= 1 && (spin == 1 ==> c.doneSticky)
      invariant Transferring(c.State(), c.flash, x', taken) && x'.address == x.address && x'.length == x.length
      invariant done ==> c.doneSticky
      invariant Filled(buffer[..], c.flash, x.address, totalBytes) && buffer[totalBytes..] == old(buffer[totalBytes..])
      decreases !done, MAX_SPIN - spin
    {
      var status;
      SameCount(x', x);
      status, x' := c.ReadStatusRegister(wait(t), x', taken);
      t := t + 1;
      done := status / 2 % 2 == 1;
      if !done {
        spin := spin + 1;
        failed := spin > MAX_SPIN;
      }
    }
    ok := !failed;
    AllTaken(c, x', taken);
  }

  lemma SpinLimit()
    ensures MAX_SPIN > 161
  {
  }

  lemma FilledStart(y: System, buffer: seq<u8>, flash: seq<u8>, x: Transfer)
    requires Transferring(y, flash, x, [])
    ensures flash != [] && Filled(buffer, flash, x.address, 0)
  {
  }

  /** Once done, a drained fifo means a controller at rest. */
  lemma AllTaken(c: Controller, x: Transfer, taken: seq<u32>)
    requires Transferring(c.State(), c.flash, x, taken) && c.doneSticky && |taken| == (x.length + 3) / 4
    ensures Quiescent(c.State())
  {
  }

  /** Stores up to four bytes of a word. */
  method Unpack(buffer: array<u8>, start: u32, totalBytes: u32, word: u32, ghost flash: seq<u8>, ghost x: Transfer, ghost n: nat)
    returns (bytesRead: u32)
    requires start < totalBytes <= buffer.Length && x.length == totalBytes && start == 4 * n && flash != []
    requires n < (totalBytes + 3) / 4 && word == Words(flash, x.address, x.length)[n]
    requires Filled(buffer[..], flash, x.address, start)
    modifies buffer
    ensures bytesRead == if start + 4 <= totalBytes then start + 4 else totalBytes
    ensures Filled(buffer[..], flash, x.address, bytesRead)
    ensures buffer[totalBytes..] == old(buffer[totalBytes..])
  {
    hide Words, FlashByte, Shr;
    bytesRead := start;
    var i := 0;
    while i < 4 && bytesRead < totalBytes
      invariant 0 <= i <= 4 && bytesRead == start + i <= totalBytes
      invariant forall k :: 0 <= k < bytesRead ==> buffer[k] == FlashByte(flash, x.address, k)
      invariant buffer[totalBytes..] == old(buffer[totalBytes..])
    {
      WordOf(flash, x.address, totalBytes, n, i);
      buffer[bytesRead] := Shr(word, 8 * i) % 0x100;
      bytesRead := bytesRead + 1;
      i := i + 1;
    }
  }

  /** Reads bytes from the flash. Whatever the timing of the bus, no poll runs into its limit, the buffer ends up holding
      exactly those bytes, and the controller is ready for the next read. */
  method ReadFlash(c: Controller, wait: nat -> nat, flashOffset: u32, totalBytes: u32, buffer: array<u8>) returns (ok: bool)
    requires Quiescent(c.State()) && flashOffset < |c.flash| <= 0x100_0000 && totalBytes <= buffer.Length && c.depth > 0
    modifies c, buffer
    ensures ok && Quiescent(c.State()) && Filled(buffer[..], c.flash, flashOffset, totalBytes)
    ensures buffer[totalBytes..] == old(buffer[totalBytes..])
  {
    hide *;
    c.Configure(WriteAddr(flashOffset), wait(0));
    c.Configure(WriteLen(totalBytes), wait(1));
    c.Configure(WriteCommand(2), wait(2));
    c.Start(wait(3));
    ghost var x';
    ok, x' := ReadFlashWords(c, n => wait(n + 4), buffer, totalBytes, Transfer(flashOffset, totalBytes, 0));
  }
}
