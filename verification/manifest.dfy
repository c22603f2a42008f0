/** The manifest of a boot image, as a record and as the 96 bytes of its packed structure. */
module Manifests {
  import opened Limbs
  import opened Bytes
  import opened BootDevices

  type u16 = x: int | 0 <= x < 0x1_0000

  datatype Manifest = Manifest(magic: u32, headerVersion: u16, flags: u16, version: u32, payloadSize: u32, loadAddress: u32,
                               entryPoint: u32, reserved: u32, pad: u32, payloadHash: seq<u8>, nextPubkeyHash: seq<u8>)

  predicate Fits(f: Manifest) {
    |f.payloadHash| == |f.nextPubkeyHash| == 32
  }

  function HalfBytes(x: u16): (b: seq<u8>)
    ensures |b| == 2
  {
    [x % 0x100, x / 0x100]
  }

  /** The structure in memory: no padding, every number with its least significant byte first. */
  function Pack(f: Manifest): (m: seq<u8>)
    requires Fits(f)
    ensures |m| == 96
  {
    Header(f) + Target(f) + f.payloadHash + f.nextPubkeyHash
  }

  function Header(f: Manifest): (m: seq<u8>)
    ensures |m| == 12
  {
    WordBytes(f.magic) + HalfBytes(f.headerVersion) + HalfBytes(f.flags) + WordBytes(f.version)
  }

  function Target(f: Manifest): (m: seq<u8>)
    ensures |m| == 20
  {
    WordBytes(f.payloadSize) + WordBytes(f.loadAddress) + WordBytes(f.entryPoint) + WordBytes(f.reserved) + WordBytes(f.pad)
  }

  // How the boot code reads them

  function Load16(m: seq<u8>, i: nat): u16
    requires i + 2 <= |m|
  {
    m[i] as int + 0x100 * m[i + 1] as int
  }

  function Magic(m: seq<u8>): u32 requires |m| == MANIFEST_SIZE { Load32(m, 0) }
  function HeaderVersion(m: seq<u8>): u16 requires |m| == MANIFEST_SIZE { Load16(m, 4) }
  function Flags(m: seq<u8>): u16 requires |m| == MANIFEST_SIZE { Load16(m, 6) }
  function Version(m: seq<u8>): u32 requires |m| == MANIFEST_SIZE { Load32(m, 8) }
  function PayloadSize(m: seq<u8>): u32 requires |m| == MANIFEST_SIZE { Load32(m, 12) }
  function LoadAddress(m: seq<u8>): u32 requires |m| == MANIFEST_SIZE { Load32(m, 16) }
  function EntryPoint(m: seq<u8>): u32 requires |m| == MANIFEST_SIZE { Load32(m, 20) }
  function Reserved(m: seq<u8>): u32 requires |m| == MANIFEST_SIZE { Load32(m, 24) }
  function Pad(m: seq<u8>): u32 requires |m| == MANIFEST_SIZE { Load32(m, 28) }
  function PayloadHash(m: seq<u8>): seq<u8> requires |m| == MANIFEST_SIZE { m[32..64] }
  function NextPubkeyHash(m: seq<u8>): seq<u8> requires |m| == MANIFEST_SIZE { m[64..96] }

  function Unpack(m: seq<u8>): (f: Manifest)
    requires |m| == MANIFEST_SIZE
    ensures Fits(f)
  {
    Manifest(Magic(m), HeaderVersion(m), Flags(m), Version(m), PayloadSize(m), LoadAddress(m), EntryPoint(m), Reserved(m), Pad(m),
             PayloadHash(m), NextPubkeyHash(m))
  }

  /** A word at offset i. */
  lemma WordAt(m: seq<u8>, i: nat, w: u32)
    requires i + 4 <= |m| && m[i..i + 4] == WordBytes(w)
    ensures Load32(m, i) == w
  {
    var b := m[i..i + 4];
    assert b[0] == m[i] && b[1] == m[i + 1] && b[2] == m[i + 2] && b[3] == m[i + 3];
    Recombine(w);
  }

  lemma HalfAt(m: seq<u8>, i: nat, x: u16)
    requires i + 2 <= |m| && m[i..i + 2] == HalfBytes(x)
    ensures Load16(m, i) == x
  {
    var b := m[i..i + 2];
    assert b[0] == m[i] && b[1] == m[i + 1];
  }

  lemma HalfOfBytes(m: seq<u8>, i: nat)
    requires i + 2 <= |m|
    ensures HalfBytes(Load16(m, i)) == m[i..i + 2]
  {
  }

  /** The fields of a packed record are those of the record, and every 96 bytes are the packing of their fields. */
  lemma Unpacked(f: Manifest)
    requires Fits(f)
    ensures Unpack(Pack(f)) == f
  {
    hide *;
    HeaderFields(f);
    TargetFields(f);
    Hashes(f);
    ManifestSize();
    UnpackIs(Pack(f));
  }

  lemma ManifestSize()
    ensures MANIFEST_SIZE == 96
  {
  }

  lemma UnpackIs(m: seq<u8>)
    requires |m| == 96 && MANIFEST_SIZE == 96
    ensures Unpack(m) == Manifest(Load32(m, 0), Load16(m, 4), Load16(m, 6), Load32(m, 8), Load32(m, 12), Load32(m, 16), Load32(m, 20),
                                  Load32(m, 24), Load32(m, 28), m[32..64], m[64..96])
  {
    hide Load32, Load16;
  }

  lemma HeaderFields(f: Manifest)
    requires Fits(f)
    ensures var m := Pack(f); Load32(m, 0) == f.magic && Load16(m, 4) == f.headerVersion && Load16(m, 6) == f.flags && Load32(m, 8) == f.version
  {
    hide WordBytes, HalfBytes, Load32, Load16, Target;
    var m := Pack(f);
    assert m[..12] == Header(f);
    assert m[0..4] == WordBytes(f.magic) && m[4..6] == HalfBytes(f.headerVersion);
    assert m[6..8] == HalfBytes(f.flags) && m[8..12] == WordBytes(f.version);
    WordAt(m, 0, f.magic);
    HalfAt(m, 4, f.headerVersion);
    HalfAt(m, 6, f.flags);
    WordAt(m, 8, f.version);
  }

  lemma TargetFields(f: Manifest)
    requires Fits(f)
    ensures var m := Pack(f); Load32(m, 12) == f.payloadSize && Load32(m, 16) == f.loadAddress && Load32(m, 20) == f.entryPoint
                              && Load32(m, 24) == f.reserved && Load32(m, 28) == f.pad
  {
    hide WordBytes, Load32, Header;
    var m := Pack(f);
    assert m[12..16] == WordBytes(f.payloadSize) && m[16..20] == WordBytes(f.loadAddress);
    assert m[20..24] == WordBytes(f.entryPoint) && m[24..28] == WordBytes(f.reserved) && m[28..32] == WordBytes(f.pad);
    WordAt(m, 12, f.payloadSize);
    WordAt(m, 16, f.loadAddress);
    WordAt(m, 20, f.entryPoint);
    WordAt(m, 24, f.reserved);
    WordAt(m, 28, f.pad);
  }

  lemma Hashes(f: Manifest)
    requires Fits(f)
    ensures Pack(f)[32..64] == f.payloadHash && Pack(f)[64..96] == f.nextPubkeyHash
  {
    hide Header, Target;
  }

  lemma Packed(m: seq<u8>)
    requires |m| == MANIFEST_SIZE
    ensures Pack(Unpack(m)) == m
  {
    PackedHeader(m);
    PackedTarget(m);
    hide Header, Target;
  }

  lemma PackedHeader(m: seq<u8>)
    requires |m| == MANIFEST_SIZE
    ensures Header(Unpack(m)) == m[..12]
  {
    WordOfBytes(m, 0);
    HalfOfBytes(m, 4);
    HalfOfBytes(m, 6);
    WordOfBytes(m, 8);
    hide WordBytes, HalfBytes, Load32, Load16;
  }

  lemma PackedTarget(m: seq<u8>)
    requires |m| == MANIFEST_SIZE
    ensures Target(Unpack(m)) == m[12..32]
  {
    WordOfBytes(m, 12);
    WordOfBytes(m, 16);
    WordOfBytes(m, 20);
    WordOfBytes(m, 24);
    WordOfBytes(m, 28);
    hide WordBytes, HalfBytes, Load32, Load16;
  }
}
