/** The peripherals that the boot code relies on besides the flash: the rollback counter and the signature verifier. */
module BootDevices {
  import opened Limbs
  import opened Bytes

  /** A register that only ever grows. */
  class RollbackCounter {
    var version: u64

    constructor (resetValue: u64)
      ensures version == resetValue
    {
      version := resetValue;
    }

    /** A write of a value that is not larger is dropped. */
    method Write(data: u64)
      modifies this
      ensures version == if data > old(version) then data else old(version)
    {
      if data > version {
        version := data;
      }
    }
  }

  const MANIFEST_SIZE: nat := 96
  const SIGNATURE_SIZE: nat := 64
  const PUBLIC_KEY_SIZE: nat := 32

  const MAX_SPIN: nat := 10000000

  const STATUS_ERROR: u32 := 0x8
  const STATUS_PASS: u32 := 0x6
  const STATUS_FAIL: u32 := 0xA

  /** The verifier: a buffer for manifest, signature and public key, filled word by word. What it verifies is a parameter. */
  class Ed25519Verifier {
    const verify: (seq<u8>, seq<u8>, seq<u8>) -> bool
    const buffer: array<u8>
    var idx: nat
    var count: nat
    var status: u32

    constructor (verify: (seq<u8>, seq<u8>, seq<u8>) -> bool)
      ensures this.verify == verify && fresh(buffer) && buffer.Length == 192
    {
      this.verify := verify;
      buffer := new u8[192](_ => 0);
      idx, count, status := 0, 0, 0;
    }

    /** One clock edge: all registers are read before any is written, and of two writes to the status the later one wins. */
    method Clock(clear: bool, dataValid: bool, dataWord: u32, start: bool)
      requires buffer.Length == 192
      modifies this, buffer
      ensures clear ==> idx == 0 && status == 0 && buffer[..] == old(buffer[..])
      ensures !clear && dataValid && old(idx) <= 188 ==>
        idx == old(idx) + 4 && buffer[..idx] == old(buffer[..idx]) + WordBytes(dataWord)
      ensures !clear && !(dataValid && old(idx) <= 188) ==> idx == old(idx) && buffer[..] == old(buffer[..])
      ensures !clear && start && old(idx) == 192 ==>
        status == if verify(old(buffer[..96]), old(buffer[96..160]), old(buffer[160..])) then 0x6 else 0xA
      ensures !clear && start && old(idx) != 192 ==> status == 0x8
      ensures !clear && !start ==> status == if dataValid && old(idx) > 188 then STATUS_ERROR else old(status)
    {
      if clear {
        idx, count, status := 0, 0, 0;
      } else {
        var i := idx;
        var verdict := Verdict(i, buffer[..]);
        assert buffer[..][..96] == buffer[..96] && buffer[..][96..160] == buffer[96..160] && buffer[..][160..192] == buffer[160..];
        if dataValid {
          if i <= 188 {
            buffer[i], buffer[i + 1] := dataWord % 0x100, dataWord / 0x100 % 0x100;
            buffer[i + 2], buffer[i + 3] := dataWord / 0x1_0000 % 0x100, dataWord / 0x100_0000 % 0x100;
            idx, count := i + 4, i + 4;
            assert buffer[..idx] == old(buffer[..idx]) + WordBytes(dataWord);
          } else {
            status := STATUS_ERROR;
          }
        }
        if start {
          status := verdict;
        }
      }
    }

    /** What a start leaves in the status register. */
    function Verdict(i: nat, b: seq<u8>): u32
      requires |b| == 192
    {
      if i != 192 then STATUS_ERROR
      else if verify(b[..96], b[96..160], b[160..192]) then STATUS_PASS
      else STATUS_FAIL
    }

    /** Streams bytes into the data register. */
    method WriteBytes(data: seq<u8>, ghost before: seq<u8>)
      requires buffer.Length == 192 && |data| % 4 == 0 && idx == |before| && |before| + |data| <= 192 && buffer[..idx] == before
      modifies this, buffer
      ensures idx == |before| + |data| && buffer[..idx] == before + data
    {
      var i := 0;
      while i < |data|
        invariant 0 <= i <= |data| && i % 4 == 0 && idx == |before| + i <= 192 && buffer[..idx] == before + data[..i]
      {
        WordOfBytes(data, i);
        Clock(false, true, Load32(data, i), false);
        assert before + data[..i] + data[i..i + 4] == before + data[..i + 4];
        i := i + 4;
      }
      assert data[..i] == data;
    }

    /** Cycles in which nothing is asked of the verifier. */
    method Idle(cycles: nat)
      requires buffer.Length == 192
      modifies this, buffer
      ensures status == old(status)
    {
      for n := 0 to cycles
        invariant status == old(status)
      {
        Clock(false, false, 0, false);
      }
    }

    /** Clears, streams, starts, and polls the status: an error fails, and so does a verdict without the pass bit, or
        none in time. The verifier answers in the cycle that starts it, so that the limit is never met. */
    method Check(wait: nat -> nat, manifest: seq<u8>, signature: seq<u8>, publicKey: seq<u8>) returns (ok: bool)
      requires buffer.Length == 192 && |manifest| == MANIFEST_SIZE && |signature| == SIGNATURE_SIZE && |publicKey| == PUBLIC_KEY_SIZE
      modifies this, buffer
      ensures ok <==> verify(manifest, signature, publicKey)
    {
      Clock(true, false, 0, false);
      WriteBytes(manifest, []);
      WriteBytes(signature, [] + manifest);
      WriteBytes(publicKey, [] + manifest + signature);
      ghost var b := buffer[..];
      assert b == manifest + signature + publicKey;
      assert b[..96] == manifest && b[96..160] == signature && b[160..192] == publicKey;
      Clock(false, false, 0, true);
      ghost var verdict := status;
      var spin, failed, done := 0, false, false;
      ok := false;
      while !failed && !done
        invariant status == verdict && spin <= MAX_SPIN + 1
        invariant done || failed ==> (ok <==> verify(manifest, signature, publicKey))
        invariant !done && !failed ==> spin == 0
        decreases !failed && !done, MAX_SPIN + 1 - spin
      {
        Idle(wait(spin));
        failed := status / 8 % 2 == 1;
        done := status / 2 % 2 == 1;
        ok := !failed && done && status / 4 % 2 == 1;
        spin := if failed || done then spin else spin + 1;
        failed := failed || spin > MAX_SPIN;
      }
    }
  }
}
