/** The boot flow: staged checks, the status register, and what holds over many boots. */
module Boot {
  import opened Limbs
  import opened Bytes
  import opened Bits
  import opened BootDevices
  import opened Manifests
  import SpiLockstep
  import SpiTransfer
  import SpiDriver
  import Sha256
  import Pmp

  const MANIFEST_OFFSET: u32 := 0x00
  const SIGNATURE_OFFSET: u32 := 0x60
  const PUBLIC_KEY_OFFSET: u32 := 0xA0
  const KERNEL_OFFSET: u32 := 0xC0
  const MANIFEST_MAGIC: u32 := 0x54424F53
  const MANIFEST_HEADER_VERSION: u32 := 1
  const DRAM_BASE: u32 := 0x80000000
  const KERNEL_ENTRY: u32 := 0x80000000

  // One status bit for each stage
  const SR_MANIFEST_HEADER: u32 := 0x01
  const SR_PUBLIC_KEY: u32 := 0x02
  const SR_MANIFEST_SIGNATURE: u32 := 0x04
  const SR_LOAD_KERNEL: u32 := 0x08
  const SR_ROLLBACK_COUNTER: u32 := 0x10
  const SR_LOCK_PMP: u32 := 0x20

  // What a boot should do

  /** n bytes of the flash, from an offset on. */
  function Image(flash: seq<u8>, offset: nat, n: nat): (b: seq<u8>)
    requires flash != []
    ensures |b| == n
  {
    seq(n, (k: nat) => SpiLockstep.FlashByte(flash, offset, k))
  }

  /** Everything outside the program that one boot depends on. */
  datatype World = World(flash: seq<u8>, otp: seq<u8>, verify: (seq<u8>, seq<u8>, seq<u8>) -> bool)

  predicate Usable(w: World) {
    0xC0 < |w.flash| <= 0x100_0000 && |w.otp| == 32
  }

  function ManifestOf(w: World): (m: seq<u8>)
    requires Usable(w)
    ensures |m| == MANIFEST_SIZE
  {
    Image(w.flash, MANIFEST_OFFSET, MANIFEST_SIZE)
  }

  function PublicKeyOf(w: World): seq<u8>
    requires Usable(w)
  {
    Image(w.flash, PUBLIC_KEY_OFFSET, PUBLIC_KEY_SIZE)
  }

  function KernelOf(w: World): seq<u8>
    requires Usable(w)
  {
    Image(w.flash, KERNEL_OFFSET, PayloadSize(ManifestOf(w)))
  }

  predicate HeaderOk(w: World)
    requires Usable(w)
  {
    Magic(ManifestOf(w)) == MANIFEST_MAGIC && HeaderVersion(ManifestOf(w)) == MANIFEST_HEADER_VERSION
  }

  predicate KeyOk(w: World)
    requires Usable(w)
  {
    Sha256.Digest(PublicKeyOf(w)) == w.otp
  }

  predicate SignatureOk(w: World)
    requires Usable(w)
  {
    w.verify(ManifestOf(w), Image(w.flash, SIGNATURE_OFFSET, SIGNATURE_SIZE), PublicKeyOf(w))
  }

  predicate TargetOk(w: World)
    requires Usable(w)
  {
    PayloadSize(ManifestOf(w)) != 0 && LoadAddress(ManifestOf(w)) >= DRAM_BASE
  }

  predicate KernelOk(w: World)
    requires Usable(w)
  {
    TargetOk(w) && Sha256.Digest(KernelOf(w)) == PayloadHash(ManifestOf(w))
  }

  predicate VersionOk(w: World, counter: u64)
    requires Usable(w)
  {
    Version(ManifestOf(w)) >= counter
  }

  datatype Outcome = Handoff(entry: u32, kernel: seq<u8>, version: u32) | Recovery(reason: u32)

  /** The outcome of a boot: the first stage that fails decides. */
  function Expected(w: World, counter: u64): Outcome
    requires Usable(w)
  {
    if !HeaderOk(w) then Recovery(SR_MANIFEST_HEADER)
    else if !KeyOk(w) then Recovery(SR_PUBLIC_KEY)
    else if !SignatureOk(w) then Recovery(SR_MANIFEST_SIGNATURE)
    else if !KernelOk(w) then Recovery(SR_LOAD_KERNEL)
    else if !VersionOk(w, counter) then Recovery(SR_ROLLBACK_COUNTER)
    else Handoff(KERNEL_ENTRY, KernelOf(w), Version(ManifestOf(w)))
  }

  function Max(a: u64, b: u64): u64 {
    if a > b then a else b
  }

  /** What comes of a boot: the expected outcome; the counter moves only on the way to a handoff; and the status register
      holds the reason for a recovery, or nothing. */
  predicate Booted(w: World, counter: u64, o: Outcome, counter': u64, status: nat)
    requires Usable(w)
  {
    && o == Expected(w, counter)
    && counter' == (if o.Handoff? then Max(counter, o.version) else counter)
    && status == (if o.Handoff? then 0 else o.reason)
  }

  // The code

  /** status & ~bit, for a single bit. */
  function ClearBit(status: nat, bit: nat): nat
    requires bit > 0
  {
    if status / bit % 2 == 1 then (if status >= bit then status - bit else 0) else status
  }

  /** Compares all bytes before deciding. */
  method SameBytes(left: seq<u8>, right: seq<u8>) returns (same: bool)
    requires |left| == |right|
    ensures same <==> left == right
  {
    var diff := false;
    for i := 0 to |left|
      invariant diff <==> left[..i] != right[..i]
    {
      assert left[..i + 1] == left[..i] + [left[i]] && right[..i + 1] == right[..i] + [right[i]];
      diff := diff || left[i] != right[i];
    }
    assert left[..|left|] == left && right[..|right|] == right;
    same := !diff;
  }

  method ClearBytes(buffer: array<u8>)
    modifies buffer
    ensures forall i :: 0 <= i < buffer.Length ==> buffer[i] == 0
  {
    for i := 0 to buffer.Length
      invariant forall k :: 0 <= k < i ==> buffer[k] == 0
    {
      buffer[i] := 0;
    }
  }

  /** Copies the fuses, a word at a time. */
  method ReadOtpHash(otp: seq<u8>, output: array<u8>)
    requires |otp| == output.Length == 32
    modifies output
    ensures output[..] == otp
  {
    hide Load32;
    for k := 0 to 8
      invariant output[..4 * k] == otp[..4 * k]
    {
      var word := Load32(otp, 4 * k);
      WordOfBytes(otp, 4 * k);
      var b := WordBytes(word);
      output[4 * k], output[4 * k + 1], output[4 * k + 2], output[4 * k + 3] := b[0], b[1], b[2], b[3];
      assert output[..4 * (k + 1)] == output[..4 * k] + b;
    }
    assert output[..32] == output[..] && otp[..32] == otp;
  }

  /** A read from the flash into a buffer of its own. The recovery for a controller that does not answer is never taken. */
  method ReadInto(spi: SpiDriver.Controller, wait: nat -> nat, offset: u32, buffer: array<u8>)
    requires SpiTransfer.Quiescent(spi.State()) && offset < |spi.flash| <= 0x100_0000 && buffer.Length < 0x1_0000_0000
    requires spi.depth > 0
    modifies spi, buffer
    ensures SpiTransfer.Quiescent(spi.State()) && buffer[..] == Image(spi.flash, offset, buffer.Length)
  {
    hide *;
    var ok := SpiDriver.ReadFlash(spi, wait, offset, buffer.Length, buffer);
    assert ok;
    FilledIs(buffer[..], spi.flash, offset);
  }

  lemma FilledIs(b: seq<u8>, flash: seq<u8>, offset: nat)
    requires SpiDriver.Filled(b, flash, offset, |b|) && flash != []
    ensures b == Image(flash, offset, |b|)
  {
  }

  /** Stage 1: the key in the flash hashes to the fuses. */
  method CheckPublicKey(publicKey: seq<u8>, otp: seq<u8>, publicKeyHash: array<u8>, otpHash: array<u8>) returns (ok: bool)
    requires |otp| == publicKeyHash.Length == otpHash.Length == 32 && publicKeyHash != otpHash
    modifies publicKeyHash, otpHash
    ensures ok <==> Sha256.Digest(publicKey) == otp
  {
    hide *;
    Sha256.Hash(publicKey, publicKeyHash);
    ReadOtpHash(otp, otpHash);
    ok := SameBytes(publicKeyHash[..], otpHash[..]);
  }

  /** Stage 3: the kernel is read to where it will run, and hashed there. */
  method CheckAndLoadKernel(spi: SpiDriver.Controller, wait: nat -> nat, manifest: seq<u8>, kernelHash: array<u8>)
    returns (ok: bool, kernel: seq<u8>)
    requires SpiTransfer.Quiescent(spi.State()) && 0xC0 < |spi.flash| <= 0x100_0000 && spi.depth > 0
    requires |manifest| == MANIFEST_SIZE && kernelHash.Length == 32
    modifies spi, kernelHash
    ensures ok <==> PayloadSize(manifest) != 0 && LoadAddress(manifest) >= DRAM_BASE
                    && Sha256.Digest(Image(spi.flash, KERNEL_OFFSET, PayloadSize(manifest))) == PayloadHash(manifest)
    ensures ok ==> kernel == Image(spi.flash, KERNEL_OFFSET, PayloadSize(manifest))
    ensures SpiTransfer.Quiescent(spi.State())
  {
    hide Sha256.Digest, Image, Load32, SpiTransfer.Quiescent;
    if PayloadSize(manifest) == 0 {
      return false, [];
    }
    if LoadAddress(manifest) < DRAM_BASE {
      return false, [];
    }
    var memory := new u8[PayloadSize(manifest)](_ => 0);
    ReadInto(spi, wait, KERNEL_OFFSET, memory);
    kernel := memory[..];
    Sha256.Hash(kernel, kernelHash);
    ok := SameBytes(kernelHash[..], PayloadHash(manifest));
  }

  /** Stage 4: no downgrade; an upgrade moves the counter, and is read back. */
  method CheckRollbackCounter(counter: RollbackCounter, version: u32) returns (ok: bool)
    modifies counter
    ensures ok <==> version >= old(counter.version)
    ensures counter.version == Max(old(counter.version), version)
  {
    var current := counter.version;
    if version < current {
      return false;
    }
    if version > current {
      counter.Write(version);
      var updated := counter.version;
      return updated >= version;
    }
    ok := true;
  }

  /** The machine: its devices, and the scratch buffers that the boot code keeps apart from where it loads the kernel. */
  class Platform {
    const spi: SpiDriver.Controller
    const counter: RollbackCounter
    const verifier: Ed25519Verifier
    const pmp: Pmp.Controller
    const otp: seq<u8>
    const manifest: array<u8>
    const signature: array<u8>
    const publicKey: array<u8>
    const publicKeyHash: array<u8>
    const otpHash: array<u8>
    const kernelHash: array<u8>
    var status: nat

    predicate Shape() {
      && manifest.Length == MANIFEST_SIZE && signature.Length == SIGNATURE_SIZE && publicKey.Length == PUBLIC_KEY_SIZE
      && publicKeyHash.Length == otpHash.Length == kernelHash.Length == 32 && verifier.buffer.Length == 192
      && manifest != signature && manifest != publicKey && manifest != publicKeyHash && manifest != otpHash && manifest != kernelHash
      && signature != publicKey && signature != publicKeyHash && signature != otpHash && signature != kernelHash
      && publicKey != publicKeyHash && publicKey != otpHash && publicKey != kernelHash
      && publicKeyHash != otpHash && publicKeyHash != kernelHash && otpHash != kernelHash
      && verifier.buffer != manifest && verifier.buffer != signature && verifier.buffer != publicKey
      && verifier.buffer != publicKeyHash && verifier.buffer != otpHash && verifier.buffer != kernelHash
      && Usable(TheWorld()) && spi.depth > 0
    }

    function TheWorld(): World {
      World(spi.flash, otp, verifier.verify)
    }

    /** A machine out of reset, with the given flash, fuses, verifier and counter. */
    constructor (flash: seq<u8>, depth: nat, otp: seq<u8>, verify: (seq<u8>, seq<u8>, seq<u8>) -> bool, counter: RollbackCounter)
      requires Usable(World(flash, otp, verify)) && depth > 0
      ensures Shape() && TheWorld() == World(flash, otp, verify) && this.counter == counter && Ready()
      ensures fresh(spi) && fresh(verifier) && fresh(verifier.buffer) && fresh(pmp)
      ensures fresh(manifest) && fresh(signature) && fresh(publicKey) && fresh(publicKeyHash) && fresh(otpHash) && fresh(kernelHash)
    {
      hide Usable, SpiTransfer.Quiescent, Pmp.Locked, Pmp.WellFormed;
      spi := new SpiDriver.Controller(flash, depth);
      verifier := new Ed25519Verifier(verify);
      pmp := new Pmp.Controller();
      this.otp, this.counter := otp, counter;
      manifest := new u8[96](_ => 0);
      signature := new u8[64](_ => 0);
      publicKey := new u8[32](_ => 0);
      publicKeyHash := new u8[32](_ => 0);
      otpHash := new u8[32](_ => 0);
      kernelHash := new u8[32](_ => 0);
      status := 0;
    }

    /** What reset establishes. */
    predicate Ready()
      reads spi, pmp, this
    {
      && SpiTransfer.Quiescent(spi.State()) && status == 0
      && Pmp.WellFormed(pmp.State()) && forall i :: 0 <= i < Pmp.ENTRIES ==> !Pmp.Locked(pmp.cfg[i])
    }

    /** Reads the fixed pieces of the boot image. */
    method ReadBootParts(schedule: nat -> (nat -> nat))
      requires Shape() && SpiTransfer.Quiescent(spi.State())
      modifies spi, manifest, signature, publicKey
      ensures SpiTransfer.Quiescent(spi.State()) && manifest[..] == ManifestOf(TheWorld()) && publicKey[..] == PublicKeyOf(TheWorld())
      ensures signature[..] == Image(spi.flash, SIGNATURE_OFFSET, SIGNATURE_SIZE)
    {
      hide SpiTransfer.Quiescent, Image;
      ReadInto(spi, schedule(0), MANIFEST_OFFSET, manifest);
      ReadInto(spi, schedule(1), SIGNATURE_OFFSET, signature);
      ReadInto(spi, schedule(2), PUBLIC_KEY_OFFSET, publicKey);
    }

    /** Records the stage that failed. */
    method EnterRecovery(reason: u32) returns (o: Outcome)
      requires status == 0
      modifies this
      ensures o == Recovery(reason) && status == reason
    {
      status := Or(status, reason);
      o := Recovery(reason);
    }

    /** Stage 5: locks memory, with the status bit of the stage up meanwhile. */
    method LockPmp()
      requires status == 0 && Pmp.WellFormed(pmp.State()) && forall i :: 0 <= i < Pmp.ENTRIES ==> !Pmp.Locked(pmp.cfg[i])
      modifies this, pmp
      ensures Pmp.IsLocked(pmp.State()) && status == 0
    {
      hide Pmp.IsLocked, Pmp.WellFormed, Pmp.Locked;
      status := Or(status, SR_LOCK_PMP);
      pmp.LockPmp();
      status := ClearBit(status, SR_LOCK_PMP);
    }

    method ClearScratch()
      requires Shape()
      modifies manifest, signature, publicKey, publicKeyHash, otpHash, kernelHash
      ensures Cleared()
    {
      hide Usable;
      ClearBytes(manifest);
      ClearBytes(signature);
      ClearBytes(publicKey);
      ClearBytes(publicKeyHash);
      ClearBytes(otpHash);
      ClearBytes(kernelHash);
    }

    /** Nothing of the checks is left in the scratch buffers. */
    predicate Cleared()
      reads manifest, signature, publicKey, publicKeyHash, otpHash, kernelHash
    {
      && (forall i :: 0 <= i < manifest.Length ==> manifest[i] == 0)
      && (forall i :: 0 <= i < signature.Length ==> signature[i] == 0)
      && (forall i :: 0 <= i < publicKey.Length ==> publicKey[i] == 0)
      && (forall i :: 0 <= i < publicKeyHash.Length ==> publicKeyHash[i] == 0)
      && (forall i :: 0 <= i < otpHash.Length ==> otpHash[i] == 0)
      && (forall i :: 0 <= i < kernelHash.Length ==> kernelHash[i] == 0)
    }

    /** The stages in their order. */
    method RunChecks(schedule: nat -> (nat -> nat)) returns (o: Outcome)
      requires Shape() && SpiTransfer.Quiescent(spi.State()) && status == 0
      modifies this, spi, counter, verifier, verifier.buffer, manifest, signature, publicKey, publicKeyHash, otpHash, kernelHash
      ensures o == Expected(TheWorld(), old(counter.version))
      ensures counter.version == if o.Handoff? then Max(old(counter.version), o.version) else old(counter.version)
      ensures status == if o.Handoff? then 0 else o.reason
    {
      hide SpiTransfer.Quiescent, Image, Load32, Sha256.Digest, Expected;
      ExpectedIs(TheWorld(), counter.version);
      ReadBootParts(schedule);
      var m := manifest[..];
      if Magic(m) != MANIFEST_MAGIC {
        o := EnterRecovery(SR_MANIFEST_HEADER);
        return;
      }
      if HeaderVersion(m) != MANIFEST_HEADER_VERSION {
        o := EnterRecovery(SR_MANIFEST_HEADER);
        return;
      }
      var keyOk := CheckPublicKey(publicKey[..], otp, publicKeyHash, otpHash);
      if !keyOk {
        o := EnterRecovery(SR_PUBLIC_KEY);
        return;
      }
      var signatureOk := verifier.Check(schedule(4), manifest[..], signature[..], publicKey[..]);
      if !signatureOk {
        o := EnterRecovery(SR_MANIFEST_SIGNATURE);
        return;
      }
      var kernelOk, kernel := CheckAndLoadKernel(spi, schedule(3), manifest[..], kernelHash);
      if !kernelOk {
        o := EnterRecovery(SR_LOAD_KERNEL);
        return;
      }
      var versionOk := CheckRollbackCounter(counter, Version(manifest[..]));
      if !versionOk {
        o := EnterRecovery(SR_ROLLBACK_COUNTER);
        return;
      }
      o := Handoff(KERNEL_ENTRY, kernel, Version(manifest[..]));
    }

    /** One boot, from reset to handoff or recovery. A handoff leaves the scratch buffers empty and the memory protection locked. */
    method BootromMain(schedule: nat -> (nat -> nat)) returns (o: Outcome)
      requires Shape() && Ready()
      modifies this, spi, counter, verifier, verifier.buffer, pmp, manifest, signature, publicKey, publicKeyHash, otpHash, kernelHash
      ensures Usable(TheWorld()) && Booted(TheWorld(), old(counter.version), o, counter.version, status)
      ensures o.Handoff? ==> Pmp.IsLocked(pmp.State()) && Cleared()
    {
      hide Usable, Expected, SpiTransfer.Quiescent, Pmp.Locked, Pmp.WellFormed, Pmp.IsLocked, Cleared;
      o := RunChecks(schedule);
      if o.Handoff? {
        ClearScratch();
        LockPmp();
      }
    }
  }

  lemma ExpectedIs(w: World, counter: u64)
    requires Usable(w)
    ensures Expected(w, counter) ==
      if !HeaderOk(w) then Recovery(SR_MANIFEST_HEADER)
      else if !KeyOk(w) then Recovery(SR_PUBLIC_KEY)
      else if !SignatureOk(w) then Recovery(SR_MANIFEST_SIGNATURE)
      else if !KernelOk(w) then Recovery(SR_LOAD_KERNEL)
      else if !VersionOk(w, counter) then Recovery(SR_ROLLBACK_COUNTER)
      else Handoff(KERNEL_ENTRY, KernelOf(w), Version(ManifestOf(w)))
  {
  }

  // Many boots

  /** A run of boots: each has its own flash and timing, and starts with the counter that the one before left. */
  datatype Step = Step(world: World, outcome: Outcome, after: u64, status: nat)

  predicate Run(counter: u64, steps: seq<Step>)
    decreases |steps|
  {
    steps == [] ||
    (Usable(steps[0].world) && Booted(steps[0].world, counter, steps[0].outcome, steps[0].after, steps[0].status)
     && Run(steps[0].after, steps[1..]))
  }

  /** All checks held on the bytes that were read. */
  predicate AllChecks(w: World)
    requires Usable(w)
  {
    HeaderOk(w) && KeyOk(w) && SignatureOk(w) && KernelOk(w)
  }

  /** What holds at each step of a run. */
  lemma OneBoot(w: World, counter: u64, o: Outcome, counter': u64, status: nat)
    requires Usable(w) && Booted(w, counter, o, counter', status)
    ensures o.Handoff? <==> AllChecks(w) && VersionOk(w, counter)
    ensures o.Handoff? ==> AllChecks(w) && o.kernel == KernelOf(w) && o.version == Version(ManifestOf(w)) >= counter && status == 0
    ensures counter' >= counter && (counter' > counter ==> o.Handoff? && AllChecks(w) && counter' == o.version)
    ensures o.Handoff? ==> counter' == Max(counter, o.version) == o.version
    ensures o.Recovery? ==>
      && status == o.reason && counter' == counter
      && status in {SR_MANIFEST_HEADER, SR_PUBLIC_KEY, SR_MANIFEST_SIGNATURE, SR_LOAD_KERNEL, SR_ROLLBACK_COUNTER}
  {
    hide HeaderOk, KeyOk, SignatureOk, KernelOk;
  }

  lemma RunFirst(counter: u64, steps: seq<Step>)
    requires Run(counter, steps) && steps != []
    ensures var first := steps[0];
      Usable(first.world) && Booted(first.world, counter, first.outcome, first.after, first.status) && Run(first.after, steps[1..])
  {
    hide Booted, Usable;
  }

  lemma {:induction false} RunOnly(counter: u64, steps: seq<Step>, i: nat)
    requires Run(counter, steps) && i < |steps|
    ensures Usable(steps[i].world)
    ensures Booted(steps[i].world, if i == 0 then counter else steps[i - 1].after, steps[i].outcome, steps[i].after, steps[i].status)
    ensures counter <= steps[i].after
    decreases i
  {
    hide *;
    RunFirst(counter, steps);
    OneBoot(steps[0].world, counter, steps[0].outcome, steps[0].after, steps[0].status);
    if i > 0 {
      RunOnly(steps[0].after, steps[1..], i - 1);
      assert steps[1..][i - 1] == steps[i];
    }
  }

  /** Over any run of boots, the kernels handed over never go back to an older version, each handed-over kernel passed
      every check, and the counter is the version of the last one handed over, or larger. */
  lemma {:induction false} VersionsNeverDecrease(counter: u64, steps: seq<Step>, i: nat, j: nat)
    requires Run(counter, steps) && i <= j < |steps|
    ensures steps[i].after <= steps[j].after
    ensures steps[i].outcome.Handoff? && steps[j].outcome.Handoff? ==>
      && counter <= steps[i].outcome.version <= steps[j].outcome.version == steps[j].after
      && Usable(steps[j].world) && AllChecks(steps[j].world) && steps[j].outcome.kernel == KernelOf(steps[j].world)
    decreases j
  {
    hide Booted, Usable, AllChecks;
    RunOnly(counter, steps, i);
    RunOnly(counter, steps, j);
    var before := if j == 0 then counter else steps[j - 1].after;
    OneBoot(steps[j].world, before, steps[j].outcome, steps[j].after, steps[j].status);
    OneBoot(steps[i].world, if i == 0 then counter else steps[i - 1].after, steps[i].outcome, steps[i].after, steps[i].status);
    if i > 0 {
      RunOnly(counter, steps, i - 1);
    }
    if i < j {
      VersionsNeverDecrease(counter, steps, i, j - 1);
    }
  }

  /** The address jumped to is a constant. It lies in the memory that was hashed exactly when the manifest loads the kernel
      there. */
  lemma EntryIsHashed(w: World, counter: u64)
    requires Usable(w) && Expected(w, counter).Handoff?
    ensures LoadAddress(ManifestOf(w)) <= Expected(w, counter).entry < LoadAddress(ManifestOf(w)) + PayloadSize(ManifestOf(w))
       <==> LoadAddress(ManifestOf(w)) == KERNEL_ENTRY
  {
    hide Image, Load32, Sha256.Digest;
  }

  /** Boot after boot, with the counter the only thing that persists. */
  method Boots(worlds: seq<World>, schedules: nat -> (nat -> (nat -> nat)), depth: nat, counter: RollbackCounter) returns (steps: seq<Step>)
    requires depth > 0 && forall i :: 0 <= i < |worlds| ==> Usable(worlds[i])
    modifies counter
    ensures Run(old(counter.version), steps) && |steps| == |worlds|
    ensures steps != [] ==> counter.version == steps[|steps| - 1].after
    ensures steps == [] ==> counter.version == old(counter.version)
    ensures forall i :: 0 <= i < |steps| ==> steps[i].world == worlds[i]
    decreases |worlds|
  {
    hide Usable, Booted, Expected, Pmp.IsLocked;
    if worlds == [] {
      return [];
    }
    var w := worlds[0];
    var p := new Platform(w.flash, depth, w.otp, w.verify, counter);
    var o := p.BootromMain(schedules(0));
    var first := Step(w, o, counter.version, p.status);
    var rest := Boots(worlds[1..], n => schedules(n + 1), depth, counter);
    steps := [first] + rest;
    assert steps[1..] == rest;
  }
}
