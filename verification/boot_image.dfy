/** Boots from images put together field by field. */
module BootImages {
  import opened Limbs
  import opened Bytes
  import opened BootDevices
  import opened Manifests
  import opened Boot
  import SpiLockstep
  import Sha256

  /** n bytes that do not run past the end of the flash. */
  lemma ImageIs(flash: seq<u8>, offset: nat, n: nat)
    requires flash != [] && offset + n <= |flash|
    ensures Image(flash, offset, n) == flash[offset..offset + n]
  {
    forall k: nat | k < n ensures SpiLockstep.FlashByte(flash, offset, k) == flash[offset + k] {
      SpiLockstep.Small(offset + k, |flash|);
    }
  }

  /** The five parts of the flash. */
  lemma Parts(s: seq<u8>, a: seq<u8>, b: seq<u8>, c: seq<u8>, d: seq<u8>, e: seq<u8>)
    requires s == a + b + c + d + e && |a| == 96 && |b| == 64 && |c| == 32
    ensures s[0..96] == a && s[96..160] == b && s[160..192] == c && s[192..192 + |d|] == d
  {
  }

  /** What a boot reads from a flash with the four parts of an image, one after the other, are these parts. */
  lemma ImageParts(w: World, f: Manifest, signature: seq<u8>, publicKey: seq<u8>, kernel: seq<u8>, rest: seq<u8>)
    requires Fits(f) && |signature| == 64 && |publicKey| == 32 && |kernel| == f.payloadSize
    requires Usable(w) && w.flash == Pack(f) + signature + publicKey + kernel + rest
    ensures ManifestOf(w) == Pack(f) && PublicKeyOf(w) == publicKey && KernelOf(w) == kernel
    ensures Image(w.flash, SIGNATURE_OFFSET, SIGNATURE_SIZE) == signature
  {
    hide *;
    var s := w.flash;
    Parts(s, Pack(f), signature, publicKey, kernel, rest);
    ImageIs(s, 0, 96);
    ImageIs(s, 96, 64);
    ImageIs(s, 160, 32);
    ImageIs(s, 192, |kernel|);
    Unpacked(f);
    Places(w);
    SizeField(Pack(f));
  }

  /** Where the parts are read. */
  lemma Places(w: World)
    requires Usable(w)
    ensures w.flash != [] && MANIFEST_SIZE == 96 && SIGNATURE_OFFSET == 96 && SIGNATURE_SIZE == 64
    ensures ManifestOf(w) == Image(w.flash, 0, 96) && PublicKeyOf(w) == Image(w.flash, 160, 32)
    ensures KernelOf(w) == Image(w.flash, 192, PayloadSize(ManifestOf(w)))
  {
    hide Image, PayloadSize;
  }

  lemma SizeField(m: seq<u8>)
    requires |m| == 96
    ensures MANIFEST_SIZE == 96 && Unpack(m).payloadSize == PayloadSize(m)
  {
    hide Load32;
  }

  /** The checks, in terms of the fields. */
  lemma Conditions(w: World, f: Manifest, signature: seq<u8>, publicKey: seq<u8>, kernel: seq<u8>, rest: seq<u8>, counter: u64)
    requires Fits(f) && |signature| == 64 && |publicKey| == 32 && |kernel| == f.payloadSize
    requires Usable(w) && w.flash == Pack(f) + signature + publicKey + kernel + rest
    ensures HeaderOk(w) <==> f.magic == 0x54424F53 && f.headerVersion == 1
    ensures KeyOk(w) <==> Sha256.Digest(publicKey) == w.otp
    ensures SignatureOk(w) <==> w.verify(Pack(f), signature, publicKey)
    ensures KernelOk(w) <==> f.payloadSize != 0 && f.loadAddress >= 0x8000_0000 && Sha256.Digest(kernel) == f.payloadHash
    ensures VersionOk(w, counter) <==> f.version >= counter
    ensures Version(ManifestOf(w)) == f.version
  {
    ImageParts(w, f, signature, publicKey, kernel, rest);
    Unpacked(f);
    hide Image, Pack, Load32, Load16, Sha256.Digest, Usable, ManifestOf, PublicKeyOf, KernelOf;
  }

  /** One boot, from the fields of the record that was packed into the flash. */
  lemma ImageBoots(w: World, f: Manifest, signature: seq<u8>, publicKey: seq<u8>, kernel: seq<u8>, rest: seq<u8>,
                   counter: u64, o: Outcome, counter': u64, status: nat)
    requires Fits(f) && |signature| == 64 && |publicKey| == 32 && |kernel| == f.payloadSize
    requires Usable(w) && w.flash == Pack(f) + signature + publicKey + kernel + rest && Booted(w, counter, o, counter', status)
    ensures var header := f.magic == 0x54424F53 && f.headerVersion == 1;
            var key := Sha256.Digest(publicKey) == w.otp;
            var signed := w.verify(Pack(f), signature, publicKey);
            var loaded := f.payloadSize != 0 && f.loadAddress >= 0x8000_0000 && Sha256.Digest(kernel) == f.payloadHash;
            if header && key && signed && loaded && f.version >= counter
            then o == Handoff(0x8000_0000, kernel, f.version) && counter' == f.version && status == 0
            else o.Recovery? && counter' == counter
                 && status == if !header then 0x01 else if !key then 0x02 else if !signed then 0x04 else if !loaded then 0x08 else 0x10
  {
    hide *;
    ImageParts(w, f, signature, publicKey, kernel, rest);
    Conditions(w, f, signature, publicKey, kernel, rest, counter);
    ExpectedIs(w, counter);
    BootedIs(w, counter, o, counter', status);
    Constants();
  }

  lemma BootedIs(w: World, counter: u64, o: Outcome, counter': u64, status: nat)
    requires Usable(w) && Booted(w, counter, o, counter', status)
    ensures o == Expected(w, counter) && counter' == (if o.Handoff? then (if counter > o.version then counter else o.version) else counter)
    ensures status == if o.Handoff? then 0 else o.reason
  {
    hide Expected;
  }

  lemma Constants()
    ensures SR_MANIFEST_HEADER == 0x01 && SR_PUBLIC_KEY == 0x02 && SR_MANIFEST_SIGNATURE == 0x04 && SR_LOAD_KERNEL == 0x08
    ensures SR_ROLLBACK_COUNTER == 0x10 && KERNEL_ENTRY == 0x8000_0000 && MANIFEST_SIZE == 96
  {
  }

  /** A manifest for a one-byte kernel at 0x80001000. */
  function OtherAddress(hash: seq<u8>): (f: Manifest)
    requires |hash| == 32
    ensures Fits(f)
  {
    Manifest(0x54424F53, 1, 0, 5, 1, 0x80001000, 0, 0, 0, hash, Zeros(32))
  }

  /** A boot that passes every check and jumps to an address outside what it hashed. */
  lemma EntryNotHashed() returns (w: World)
    ensures Usable(w) && Expected(w, 0).Handoff? && |KernelOf(w)| == 1 && Expected(w, 0).entry < LoadAddress(ManifestOf(w))
  {
    hide *;
    var kernel: seq<u8> := [0x13];
    var signature, publicKey := Zeros(64), Zeros(32);
    DigestLength(kernel);
    DigestLength(publicKey);
    OtherFields(Sha256.Digest(kernel));
    var f := OtherAddress(Sha256.Digest(kernel));
    w := World(Pack(f) + signature + publicKey + kernel + [], Sha256.Digest(publicKey), (_, _, _) => true);
    UsableIs(w);
    ImageParts(w, f, signature, publicKey, kernel, []);
    Conditions(w, f, signature, publicKey, kernel, [], 0);
    ExpectedIs(w, 0);
    Unpacked(f);
    UnpackedAddress(Pack(f));
    Constants();
  }

  lemma OtherFields(hash: seq<u8>)
    requires |hash| == 32
    ensures OtherAddress(hash) == Manifest(0x54424F53, 1, 0, 5, 1, 0x80001000, 0, 0, 0, hash, Zeros(32)) && Fits(OtherAddress(hash))
  {
  }

  lemma UnpackedAddress(m: seq<u8>)
    requires |m| == MANIFEST_SIZE
    ensures Unpack(m).loadAddress == LoadAddress(m)
  {
  }

  lemma UsableIs(w: World)
    requires |w.flash| == 0xC1 && |w.otp| == 32
    ensures Usable(w)
  {
  }

  lemma DigestLength(m: seq<u8>)
    ensures |Sha256.Digest(m)| == 32
  {
  }
}
