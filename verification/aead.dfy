/** Authenticated encryption of a sequence of messages: writer and reader replace their key after each one. */
module Aead {
  import opened Limbs
  import opened Bytes
  import opened ChaCha20
  import opened Chunks
  import Poly1305

  datatype State = State(key: seq<u8>, nonce: seq<u8>, counter: u64)

  predicate Valid(s: State) {
    |s.key| == 32 && |s.nonce| == 8
  }

  /** The first block of the key stream: a one-time key, and the next session key. */
  function AuthBlock(rounds: Rounds, s: State): (b: seq<u8>)
    requires Valid(s)
    ensures |b| == 64
  {
    Crypt(rounds, s.key, s.nonce, s.counter, Zeros(64))
  }

  /** The text masked with the key stream after that block. */
  function Cipher(rounds: Rounds, s: State, text: seq<u8>): (c: seq<u8>)
    requires Valid(s)
    ensures |c| == |text|
  {
    Crypt(rounds, s.key, s.nonce, Wrap64(s.counter + 1), text)
  }

  /** A size in eight bytes. */
  function Le64(n: nat): (b: seq<u8>)
    ensures |b| == 8
  {
    WordBytes(ChaCha20.Lo(n)) + WordBytes(ChaCha20.Hi(n))
  }

  /** What is authenticated: both parts padded to whole blocks, and their sizes. */
  function MacData(ad: seq<u8>, c: seq<u8>): seq<u8> {
    ad + Zeros(Gap(|ad|, 16)) + c + Zeros(Gap(|c|, 16)) + (Le64(|ad|) + Le64(|c|))
  }

  /** The number that the authentication tag denotes. */
  function Mac(rounds: Rounds, s: State, ad: seq<u8>, c: seq<u8>): nat
    requires Valid(s)
  {
    Poly1305.Tag(AuthBlock(rounds, s)[..32], MacData(ad, c))
  }

  /** The state for the next message. It does not depend on this one. */
  function Next(rounds: Rounds, s: State): (t: State)
    requires Valid(s)
    ensures Valid(t)
  {
    s.(key := AuthBlock(rounds, s)[32..])
  }

  function After(rounds: Rounds, s: State, n: nat): (t: State)
    requires Valid(s)
    ensures Valid(t)
  {
    if n == 0 then s else Next(rounds, After(rounds, s, n - 1))
  }

  // What these are, in terms of one key stream

  /** One stream, from the counter on, gives first the one-time key, then the next session key, then the cipher text. */
  lemma OneStream(rounds: Rounds, s: State, ad: seq<u8>, text: seq<u8>)
    requires Valid(s)
    ensures var stream := Crypt(rounds, s.key, s.nonce, s.counter, Zeros(64) + text);
      && Mac(rounds, s, ad, text) == Poly1305.Tag(stream[..32], MacData(ad, text))
      && Next(rounds, s) == State(stream[32..64], s.nonce, s.counter)
      && Cipher(rounds, s, text) == stream[64..]
  {
    Sizes(s);
    hide *;
    CryptSplit(rounds, s.key, s.nonce, s.counter, Zeros(64), text);
    NextBlock(s.counter);
    Meaning(rounds, s, ad, text);
    ThreeParts(AuthBlock(rounds, s), Cipher(rounds, s, text));
  }

  lemma Sizes(s: State)
    requires Valid(s)
    ensures |s.key| == 32 && |s.nonce| == 8
  {
  }

  lemma NextBlock(ctr: u64)
    ensures ChaCha20.After(ctr, 64) == Wrap64(ctr + 1)
  {
  }

  lemma Meaning(rounds: Rounds, s: State, ad: seq<u8>, text: seq<u8>)
    requires Valid(s)
    ensures AuthBlock(rounds, s) == Crypt(rounds, s.key, s.nonce, s.counter, Zeros(64))
    ensures Cipher(rounds, s, text) == Crypt(rounds, s.key, s.nonce, Wrap64(s.counter + 1), text)
    ensures Mac(rounds, s, ad, text) == Poly1305.Tag(AuthBlock(rounds, s)[..32], MacData(ad, text))
    ensures Next(rounds, s) == State(AuthBlock(rounds, s)[32..], s.nonce, s.counter)
  {
    hide Crypt, MacData, Poly1305.Tag, Wrap64;
  }

  lemma ThreeParts(auth: seq<u8>, rest: seq<u8>)
    requires |auth| == 64
    ensures (auth + rest)[..32] == auth[..32] && (auth + rest)[32..64] == auth[32..] && (auth + rest)[64..] == rest
  {
  }

  /** The data under the tag are whole blocks: the two parts from block boundaries on, and their sizes in 64 bits. */
  lemma MacBlocks(ad: seq<u8>, c: seq<u8>)
    ensures var m, n := MacData(ad, c), |ad| + Gap(|ad|, 16);
      && |m| % 16 == 0 && n % 16 == 0 && |m| - 16 < |ad| + |c| + 32
      && m[..|ad|] == ad && m[n..n + |c|] == c
      && Num(m[|m| - 16..|m| - 8], 8) == |ad| % 0x1_0000_0000_0000_0000 && Num(m[|m| - 8..], 8) == |c| % 0x1_0000_0000_0000_0000
  {
    hide *;
    SizeBytes(|ad|);
    SizeBytes(|c|);
    MacDataIs(ad, c);
    Sections(ad, Zeros(Gap(|ad|, 16)), c, Zeros(Gap(|c|, 16)), Le64(|ad|), Le64(|c|));
    Whole(|ad| + Gap(|ad|, 16), |c| + Gap(|c|, 16));
  }

  lemma Sections(a: seq<u8>, y: seq<u8>, c: seq<u8>, z: seq<u8>, s: seq<u8>, t: seq<u8>)
    requires |s| == |t| == 8
    ensures var m, n := a + y + c + z + (s + t), |a| + |y|;
      && |m| == n + |c| + |z| + 16 && m[..|a|] == a && m[n..n + |c|] == c && m[|m| - 16..|m| - 8] == s && m[|m| - 8..] == t
  {
  }

  lemma Whole(x: nat, y: nat)
    requires x % 16 == 0 && y % 16 == 0
    ensures (x + y + 16) % 16 == 0
  {
  }

  lemma SizeBytes(n: nat)
    ensures Num(Le64(n), 8) == n % 0x1_0000_0000_0000_0000
  {
    hide *;
    var b := Le64(n);
    SizeWords(n);
    NumFour(b, 0);
    NumFour(b, 4);
    FirstWeights(b);
    LowAndHigh(n);
  }

  lemma SizeWords(n: nat)
    ensures Load32(Le64(n), 0) == ChaCha20.Lo(n) && Load32(Le64(n), 4) == ChaCha20.Hi(n)
  {
    Recombine(ChaCha20.Lo(n));
    Recombine(ChaCha20.Hi(n));
    hide ChaCha20.Lo, ChaCha20.Hi;
  }

  lemma LowAndHigh(n: nat)
    ensures n % 0x1_0000_0000_0000_0000 == ChaCha20.Lo(n) + 0x1_0000_0000 * ChaCha20.Hi(n) as int
  {
  }

  lemma FirstWeights(b: seq<u8>)
    ensures Num(b, 0) == 0 && Pw8(0) == 1 && Pw8(4) == 0x1_0000_0000
  {
  }

  /** Computes the tag in five steps. */
  method LockAuth(mac: array<u8>, authKey: seq<u8>, ad: seq<u8>, c: seq<u8>)
    requires mac.Length == 16 && |authKey| == 32
    modifies mac
    ensures Num(mac[..], 16) == Poly1305.Tag(authKey, MacData(ad, c))
  {
    hide *;
    var poly := new Poly1305.Context(authKey);
    poly.Update(ad, []);
    assert [] + ad == ad;
    poly.Update(Zeros(Gap(|ad|, 16)), ad);
    poly.Update(c, ad + Zeros(Gap(|ad|, 16)));
    poly.Update(Zeros(Gap(|c|, 16)), ad + Zeros(Gap(|ad|, 16)) + c);
    poly.Update(Le64(|ad|) + Le64(|c|), ad + Zeros(Gap(|ad|, 16)) + c + Zeros(Gap(|c|, 16)));
    MacDataIs(ad, c);
    poly.Final(mac, authKey, MacData(ad, c));
  }

  lemma MacDataIs(ad: seq<u8>, c: seq<u8>)
    ensures MacData(ad, c)
         == ad + Zeros(Gap(|ad|, 16)) + c + Zeros(Gap(|c|, 16)) + (Le64(|ad|) + Le64(|c|))
  {
  }

  class Context {
    const rounds: Rounds
    var key: seq<u8>
    var nonce: seq<u8>
    var counter: u64

    function GetState(): State
      reads this
    {
      State(key, nonce, counter)
    }

    constructor (rounds: Rounds, key: seq<u8>, nonce: seq<u8>)
      requires |key| == 32 && |nonce| == 8
      ensures this.rounds == rounds && GetState() == State(key, nonce, 0) && Valid(GetState())
    {
      this.rounds, this.key, this.nonce, counter := rounds, key, nonce, 0;
    }

    /** Encrypts and authenticates one message, and moves on to the next key. */
    method Write(cipher: array<u8>, mac: array<u8>, ad: seq<u8>, text: seq<u8>)
      requires Valid(GetState()) && cipher.Length == |text| && mac.Length == 16 && cipher != mac
      modifies this, cipher, mac
      ensures GetState() == Next(rounds, old(GetState()))
      ensures cipher[..] == Cipher(rounds, old(GetState()), text)
      ensures Num(mac[..], 16) == Mac(rounds, old(GetState()), ad, cipher[..])
    {
      hide Crypt, MacData, Poly1305.Tag, ChaCha20.After, Num;
      var authKey := new u8[64](_ => 0);
      var _ := Djb(rounds, authKey, Zeros(64), false, key, nonce, counter);
      var _ := Djb(rounds, cipher, text, true, key, nonce, Wrap64(counter + 1));
      LockAuth(mac, authKey[..32], ad, cipher[..]);
      assert authKey[..32] == authKey[..][..32] && authKey[32..] == authKey[..][32..];
      key := authKey[32..];
    }

    /** Checks and decrypts one message. Only if the tag is right does anything change. */
    method Read(text: array<u8>, mac: seq<u8>, ad: seq<u8>, cipher: seq<u8>) returns (mismatch: int)
      requires Valid(GetState()) && text.Length == |cipher| && |mac| == 16
      modifies this, text
      ensures mismatch == 0 || mismatch == -1
      ensures mismatch == 0 <==> Num(mac, 16) == Mac(rounds, old(GetState()), ad, cipher)
      ensures mismatch == 0 ==> GetState() == Next(rounds, old(GetState())) && text[..] == Cipher(rounds, old(GetState()), cipher)
      ensures mismatch != 0 ==> GetState() == old(GetState()) && text[..] == old(text[..])
    {
      hide Crypt, MacData, Poly1305.Tag, ChaCha20.After, Num;
      var authKey := new u8[64](_ => 0);
      var realMac := new u8[16](_ => 0);
      var _ := Djb(rounds, authKey, Zeros(64), false, key, nonce, counter);
      LockAuth(realMac, authKey[..32], ad, cipher);
      assert authKey[..32] == authKey[..][..32] && authKey[32..] == authKey[..][32..];
      SameMac(mac, realMac[..]);
      mismatch := if mac == realMac[..] then 0 else -1;
      if mismatch == 0 {
        var _ := Djb(rounds, text, cipher, true, key, nonce, Wrap64(counter + 1));
        key := authKey[32..];
      }
    }
  }

  lemma SameMac(a: seq<u8>, b: seq<u8>)
    requires |a| == |b| == 16
    ensures a == b <==> Num(a, 16) == Num(b, 16)
  {
    hide *;
    if Num(a, 16) == Num(b, 16) {
      NumInjective(a, b, 16);
      assert a == a[..16] && b == b[..16];
    }
  }

  /** A message as it travels. */
  datatype Message = Message(ad: seq<u8>, text: seq<u8>)
  datatype Sealed = Sealed(ad: seq<u8>, cipher: seq<u8>, mac: seq<u8>)

  /** What the writer makes of a message in a given state. */
  predicate Seals(rounds: Rounds, s: State, m: Message, w: Sealed)
    requires Valid(s)
  {
    w.ad == m.ad && w.cipher == Cipher(rounds, s, m.text) && |w.mac| == 16 && Num(w.mac, 16) == Mac(rounds, s, m.ad, w.cipher)
  }

  method WriteAll(writer: Context, messages: seq<Message>) returns (wire: seq<Sealed>)
    requires Valid(writer.GetState())
    modifies writer
    ensures Valid(old(writer.GetState())) && writer.GetState() == After(writer.rounds, old(writer.GetState()), |messages|)
    ensures |wire| == |messages|
    ensures forall i :: 0 <= i < |wire| ==> Seals(writer.rounds, After(writer.rounds, old(writer.GetState()), i), messages[i], wire[i])
  {
    hide Next, Cipher, Mac, Num;
    wire := [];
    for i := 0 to |messages|
      invariant |wire| == i && writer.GetState() == After(writer.rounds, old(writer.GetState()), i)
      invariant forall k :: 0 <= k < i ==> Seals(writer.rounds, After(writer.rounds, old(writer.GetState()), k), messages[k], wire[k])
    {
      var cipher := new u8[|messages[i].text|](_ => 0);
      var mac := new u8[16](_ => 0);
      writer.Write(cipher, mac, messages[i].ad, messages[i].text);
      wire := wire + [Sealed(messages[i].ad, cipher[..], mac[..])];
    }
  }

  /** A reader in the writer's first state, fed what the writer sent, accepts every message, recovers every text, and ends
      in the writer's last state. */
  method ReadAll(reader: Context, messages: seq<Message>, wire: seq<Sealed>) returns (ok: bool, texts: seq<seq<u8>>)
    requires Valid(reader.GetState()) && |wire| == |messages|
    requires forall i :: 0 <= i < |wire| ==> Seals(reader.rounds, After(reader.rounds, reader.GetState(), i), messages[i], wire[i])
    modifies reader
    ensures ok && |texts| == |messages| && forall i :: 0 <= i < |texts| ==> texts[i] == messages[i].text
    ensures Valid(old(reader.GetState())) && reader.GetState() == After(reader.rounds, old(reader.GetState()), |messages|)
  {
    hide Next, Cipher, Mac, Num;
    ok, texts := true, [];
    ghost var first := reader.GetState();
    for i := 0 to |wire|
      invariant ok && |texts| == i && reader.GetState() == After(reader.rounds, first, i)
      invariant forall k :: 0 <= k < i ==> texts[k] == messages[k].text
    {
      assert Seals(reader.rounds, After(reader.rounds, first, i), messages[i], wire[i]);
      var text := new u8[|wire[i].cipher|](_ => 0);
      Unmasked(reader.rounds, reader.GetState(), messages[i].text);
      var mismatch := reader.Read(text, wire[i].mac, wire[i].ad, wire[i].cipher);
      ok := ok && mismatch == 0;
      texts := texts + [text[..]];
    }
  }

  lemma Unmasked(rounds: Rounds, s: State, text: seq<u8>)
    requires Valid(s)
    ensures Cipher(rounds, s, Cipher(rounds, s, text)) == text
  {
    CryptTwice(rounds, s.key, s.nonce, Wrap64(s.counter + 1), text);
    hide Crypt;
  }
}
