/** The key stream of ChaCha20: what goes into a block, and what is added. */
module ChaCha20Laws {
  import opened Limbs
  import opened Bytes
  import opened ChaCha20

  /** Word j of block n of the key stream is the sum of what the rounds make of the input and of the input itself. */
  lemma StreamWords(rounds: Rounds, key: seq<u8>, nonce: seq<u8>, ctr: u64, n: nat, j: nat)
    requires |key| == 32 && |nonce| == 8 && j < 16
    requires forall w: seq<u32> :: |w| == 16 ==> |rounds(w)| == 16
    ensures var input := Input(key, nonce, Wrap64(ctr + n));
      Load32(Crypt(rounds, key, nonce, ctr, Zeros(64 * (n + 1))), 64 * n + 4 * j) == (rounds(input)[j] as int + input[j] as int) % 0x1_0000_0000
  {
    hide *;
    var input, at := Input(key, nonce, Wrap64(ctr + n)), 64 * n + 4 * j;
    var w := StreamWord(rounds, input, j);
    StreamOf(rounds, key, nonce, ctr, n, j, 0);
    StreamOf(rounds, key, nonce, ctr, n, j, 1);
    StreamOf(rounds, key, nonce, ctr, n, j, 2);
    StreamOf(rounds, key, nonce, ctr, n, j, 3);
    FromBytes(w);
    LoadOf(Crypt(rounds, key, nonce, ctr, Zeros(64 * (n + 1))), at);
    Forward(rounds, input, j);
  }

  lemma Forward(rounds: Rounds, input: seq<u32>, j: nat)
    requires |input| == |rounds(input)| == 16 && j < 16
    ensures StreamWord(rounds, input, j) == (rounds(input)[j] as int + input[j] as int) % 0x1_0000_0000
  {
  }

  lemma LoadOf(s: seq<u8>, i: nat)
    requires i + 4 <= |s|
    ensures Load32(s, i) == s[i] as int + 0x100 * s[i + 1] as int + 0x1_0000 * s[i + 2] as int + 0x100_0000 * s[i + 3] as int
  {
  }

  /** A text of zeros is masked to the key stream itself. */
  lemma StreamOf(rounds: Rounds, key: seq<u8>, nonce: seq<u8>, ctr: u64, n: nat, j: nat, k: nat)
    requires |key| == 32 && |nonce| == 8 && j < 16 && k < 4
    ensures Crypt(rounds, key, nonce, ctr, Zeros(64 * (n + 1)))[64 * n + 4 * j + k]
         == WordBytes(StreamWord(rounds, Input(key, nonce, Wrap64(ctr + n)), j))[k]
  {
    hide *;
    StreamIs(rounds, key, nonce, ctr, n, j, k);
    ZeroMask(StreamWord(rounds, Input(key, nonce, Wrap64(ctr + n)), j));
    ByteOfText(rounds, key, nonce, ctr, Zeros(64 * (n + 1)), 64 * n + 4 * j + k);
  }

  lemma ByteOfText(rounds: Rounds, key: seq<u8>, nonce: seq<u8>, ctr: u64, text: seq<u8>, i: nat)
    requires |key| == 32 && |nonce| == 8 && i < |text|
    ensures Crypt(rounds, key, nonce, ctr, text)[i] == Mask(StreamByte(rounds, key, nonce, ctr, i), text[i])
  {
    hide StreamByte, Mask;
  }

  /** The input of a block, seen through rounds that contribute nothing: the constant, the key, the counter and the nonce. */
  lemma FirstBlock(rounds: Rounds, key: seq<u8>, nonce: seq<u8>, ctr: u64)
    requires |key| == 32 && |nonce| == 8
    requires forall w :: rounds(w) == seq(16, _ => 0)
    ensures var b := Crypt(rounds, key, nonce, ctr, Zeros(64));
      && (forall i :: 0 <= i < 16 ==> b[i] == "expand 32-byte k"[i] as int)
      && b[16..48] == key && Num(b[48..56], 8) == ctr && b[56..64] == nonce
  {
    hide *;
    var b := Crypt(rounds, key, nonce, ctr, Zeros(64));
    forall j | 0 <= j < 16 ensures b[4 * j..4 * j + 4] == WordBytes(Input(key, nonce, ctr)[j]) {
      InputWord(rounds, key, nonce, ctr, j);
    }
    Layout(b, key, nonce, ctr);
  }

  lemma InputWord(rounds: Rounds, key: seq<u8>, nonce: seq<u8>, ctr: u64, j: nat)
    requires |key| == 32 && |nonce| == 8 && j < 16 && forall w :: rounds(w) == seq(16, _ => 0)
    ensures Crypt(rounds, key, nonce, ctr, Zeros(64))[4 * j..4 * j + 4] == WordBytes(Input(key, nonce, ctr)[j])
  {
    hide *;
    CounterStart(ctr);
    var input := Input(key, nonce, ctr);
    assert |rounds(input)| == 16;
    Forward(rounds, input, j);
    assert 64 * (0 + 1) == 64;
    StreamOf(rounds, key, nonce, ctr, 0, j, 0);
    StreamOf(rounds, key, nonce, ctr, 0, j, 1);
    StreamOf(rounds, key, nonce, ctr, 0, j, 2);
    StreamOf(rounds, key, nonce, ctr, 0, j, 3);
  }

  lemma Layout(b: seq<u8>, key: seq<u8>, nonce: seq<u8>, ctr: u64)
    requires |key| == 32 && |nonce| == 8 && |b| == 64
    requires forall j :: 0 <= j < 16 ==> b[4 * j..4 * j + 4] == WordBytes(Input(key, nonce, ctr)[j])
    ensures forall i :: 0 <= i < 16 ==> b[i] == "expand 32-byte k"[i] as int
    ensures b[16..48] == key && Num(b[48..56], 8) == ctr && b[56..64] == nonce
  {
    hide *;
    InputParts(key, nonce, ctr);
    PartIs(b, 0, Constant(), 4);
    PartIs(b, 16, key, 8);
    PartIs(b, 56, nonce, 2);
    ConstantText();
    assert b[48..52] == WordBytes(Lo(ctr)) && b[52..56] == WordBytes(Hi(ctr)) by {
      assert b[4 * 12..4 * 12 + 4] == WordBytes(Input(key, nonce, ctr)[12]);
      assert b[4 * 13..4 * 13 + 4] == WordBytes(Input(key, nonce, ctr)[13]);
    }
    CounterBytes(b[48..56], ctr);
  }

  /** n words of the block that hold the words of s are its bytes. */
  lemma PartIs(b: seq<u8>, at: nat, s: seq<u8>, n: nat)
    requires |b| == 64 && |s| == 4 * n && at % 4 == 0 && at + 4 * n <= 64
    requires forall j :: 0 <= j < n ==> b[at + 4 * j..at + 4 * j + 4] == WordBytes(Load32(s, 4 * j))
    ensures b[at..at + 4 * n] == s
  {
    hide *;
    forall i | 0 <= i < 4 * n ensures b[at + i] == s[i] {
      var j := i / 4;
      WordOfBytes(s, 4 * j);
      var w := b[at + 4 * j..at + 4 * j + 4];
      assert w[i - 4 * j] == b[at + i] && w == s[4 * j..4 * j + 4];
    }
  }

  lemma CounterBytes(b: seq<u8>, ctr: u64)
    requires |b| == 8 && b[..4] == WordBytes(Lo(ctr)) && b[4..] == WordBytes(Hi(ctr))
    ensures Num(b, 8) == ctr
  {
    FromBytes(Lo(ctr));
    FromBytes(Hi(ctr));
    assert Load32(b, 0) == Lo(ctr) && Load32(b, 4) == Hi(ctr) by {
      assert forall i :: 0 <= i < 4 ==> b[i] == WordBytes(Lo(ctr))[i] && b[4 + i] == b[4..][i] == WordBytes(Hi(ctr))[i];
      hide WordBytes;
    }
    Halves(ctr);
    hide WordBytes, Load32, Lo, Hi;
    NumFour(b, 0);
    NumFour(b, 4);
    assert Num(b, 0) == 0 && Pw8(0) == 1;
    PwPw8(1);
    assert Pw8(4) == 0x1_0000_0000;
  }

  lemma ConstantText()
    ensures forall i :: 0 <= i < 16 ==> Constant()[i] == "expand 32-byte k"[i] as int
  {
  }

  lemma InputParts(key: seq<u8>, nonce: seq<u8>, ctr: u64)
    requires |key| == 32 && |nonce| == 8
    ensures var w := Input(key, nonce, ctr);
      && (forall j :: 0 <= j < 4 ==> w[j] == Load32(Constant(), 4 * j)) && (forall j :: 0 <= j < 8 ==> w[4 + j] == Load32(key, 4 * j))
      && w[12] == Lo(ctr) && w[13] == Hi(ctr) && (forall j :: 0 <= j < 2 ==> w[14 + j] == Load32(nonce, 4 * j))
  {
    hide Load32, Constant, Lo, Hi;
  }
}
