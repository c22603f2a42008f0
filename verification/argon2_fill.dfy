/** Filling the memory of Argon2, lane by lane or in any interleaving of the lanes. */
module Argon2Fill {
  import opened Arith
  import opened Limbs
  import opened Argon2

  /** The operations on blocks: exclusive or, the rounds, a block from its 128 words, and a word of a block. */
  datatype Mixer<!B> = Mixer(xor: (B, B) -> B, rounds: B -> B, block: seq<nat> -> B, word: (B, nat) -> u64)

  /** Whether the index is independent of the data. */
  predicate ConstantTime(c: Config, pass: nat, slice: nat) {
    c.algorithm != ARGON2_D && !(c.algorithm == ARGON2_ID && (pass > 0 || slice >= 2))
  }

  /** Argon2d never uses it, Argon2i always, and Argon2id in the first half of the first pass. */
  lemma IndexMode(c: Config, pass: nat, slice: nat)
    requires slice < 4
    ensures c.algorithm == 0 ==> !ConstantTime(c, pass, slice)
    ensures c.algorithm == 1 ==> ConstantTime(c, pass, slice)
    ensures c.algorithm == 2 ==> (ConstantTime(c, pass, slice) <==> 4 * pass + slice < 2)
  {
  }

  /** The words that an index block starts from. */
  function IndexWords(c: Config, pass: nat, lane: nat, slice: nat, ctr: nat): (w: seq<nat>)
    requires Valid(c)
    ensures |w| == 128
  {
    [pass, lane, slice, Total(c), c.nbPasses, c.algorithm, ctr] + seq(121, _ => 0)
  }

  function Shuffle<B>(mx: Mixer<B>, block: B): B {
    mx.xor(mx.rounds(block), block)
  }

  /** The deterministic index block with number ctr of a segment. */
  function IndexBlock<B>(c: Config, mx: Mixer<B>, pass: nat, lane: nat, slice: nat, ctr: nat): B
    requires Valid(c)
  {
    Shuffle(mx, Shuffle(mx, mx.block(IndexWords(c, pass, lane, slice, ctr))))
  }

  /** The index seed: word block % 128 of the index block counted by block / 128, or the first word of the previous block. */
  function Seed<B>(c: Config, mx: Mixer<B>, previous: B, p: Position): u64
    requires Valid(c)
  {
    if ConstantTime(c, p.pass, p.slice) then mx.word(IndexBlock(c, mx, p.pass, p.lane, p.slice, p.block / 128 + 1), p.block % 128)
    else mx.word(previous, 0)
  }

  /** The new value of a block. */
  function Mix<B>(mx: Mixer<B>, pass: nat, previous: B, reference: B, current: B): B {
    var tmp := mx.xor(previous, reference);
    mx.xor(if pass == 0 then tmp else mx.xor(current, tmp), mx.rounds(tmp))
  }

  /** xor is an exclusive or with the neutral element zero. */
  ghost predicate Masks<B(!new)>(mx: Mixer<B>, zero: B) {
    && (forall a, b, c :: mx.xor(mx.xor(a, b), c) == mx.xor(a, mx.xor(b, c)))
    && (forall a, b :: mx.xor(a, b) == mx.xor(b, a))
    && (forall a :: mx.xor(a, zero) == a && mx.xor(a, a) == zero)
  }

  /** A later pass masks what the first pass would have made of the same blocks with the old block; and the mixing is that of
      the index blocks, applied to the masked pair, whichever is the previous one. */
  lemma MixIs<B(!new)>(mx: Mixer<B>, pass: nat, previous: B, reference: B, current: B, zero: B)
    requires Masks(mx, zero)
    ensures Mix(mx, pass, previous, reference, current)
         == mx.xor(Shuffle(mx, mx.xor(reference, previous)), if pass == 0 then zero else current)
    ensures mx.xor(Mix(mx, 0, previous, reference, current), Mix(mx, pass + 1, previous, reference, current)) == current
  {
    var t := mx.xor(previous, reference);
    assert t == mx.xor(reference, previous);
    var r := mx.rounds(t);
    assert mx.xor(mx.xor(current, t), r) == mx.xor(current, mx.xor(t, r));
    assert mx.xor(t, r) == mx.xor(r, t) == Shuffle(mx, t);
    var s := Shuffle(mx, t);
    assert mx.xor(current, s) == mx.xor(s, current);
    assert mx.xor(s, mx.xor(s, current)) == mx.xor(mx.xor(s, s), current) == mx.xor(zero, current) == mx.xor(current, zero);
  }

  lemma Index(c: Config, l: nat, r: int)
    requires Valid(c) && l < c.nbLanes && 0 <= r < LaneSize(c)
    ensures 0 <= l * LaneSize(c) + r < Total(c)
  {
    Sizes(c);
    MulLe(LaneSize(c), l, c.nbLanes - 1);
    MulLe(LaneSize(c), 0, l);
    hide LaneSize;
    assert (c.nbLanes - 1) * LaneSize(c) == Total(c) - LaneSize(c);
  }

  /** Different places of different lanes have different indices. */
  lemma IndexUnique(c: Config, l: nat, r: int, l': nat, r': int)
    requires Valid(c) && 0 <= r < LaneSize(c) && 0 <= r' < LaneSize(c)
    requires l * LaneSize(c) + r == l' * LaneSize(c) + r'
    ensures l == l' && r == r'
  {
    hide LaneSize;
    DivModUnique(l * LaneSize(c) + r, l, r, LaneSize(c));
    DivModUnique(l * LaneSize(c) + r, l', r', LaneSize(c));
  }

  function PreviousPlace(c: Config, p: Position): int
    requires Valid(c)
  {
    if p.block == 0 && p.slice == 0 then LaneSize(c) - 1 else Place(c, p) - 1
  }

  /** The blocks that one step touches are in the memory. */
  lemma InMemory(c: Config, p: Position, seed: u64)
    requires Valid(c) && InRange(c, p)
    ensures 0 <= Place(c, p) < LaneSize(c) && 0 <= PreviousPlace(c, p) < LaneSize(c)
    ensures Previous(c, p) == p.lane * LaneSize(c) + PreviousPlace(c, p)
    ensures 0 <= Current(c, p) < Total(c) && 0 <= Previous(c, p) < Total(c) && 0 <= Reference(c, p, seed) < Total(c)
    ensures 0 <= p.slice * SegmentSize(c) <= Place(c, p) < (p.slice + 1) * SegmentSize(c) <= LaneSize(c)
  {
    Sizes(c);
    var seg := SegmentSize(c);
    MulLe(seg, p.slice, 3);
    MulLe(seg, 0, p.slice);
    assert (p.slice + 1) * seg == p.slice * seg + seg;
    assert p.slice > 0 ==> p.slice * seg >= seg by { if p.slice > 0 { MulLe(seg, 1, p.slice); } }
    ReferenceIsReady(c, p, seed);
    assert LaneSize(c) == 4 * seg;
    hide SegmentSize, LaneSize, ReferenceLane, ReferencePlace, Total;
    Index(c, p.lane, Place(c, p));
    Index(c, p.lane, PreviousPlace(c, p));
    Index(c, ReferenceLane(c, p, seed), ReferencePlace(c, p, seed));
  }

  /** One block filled. */
  function Step<B>(c: Config, mx: Mixer<B>, mem: seq<B>, p: Position): (r: seq<B>)
    requires Valid(c) && InRange(c, p) && |mem| >= Total(c)
    ensures |r| == |mem|
  {
    InMemory(c, p, 0);
    var previous := mem[Previous(c, p)];
    var seed := Seed(c, mx, previous, p);
    InMemory(c, p, seed);
    mem[Current(c, p) := Mix(mx, p.pass, previous, mem[Reference(c, p, seed)], mem[Current(c, p)])]
  }

  /** One lane's current segment filled up to block n. */
  function Lane<B>(c: Config, mx: Mixer<B>, mem: seq<B>, pass: nat, slice: nat, lane: nat, n: nat): (r: seq<B>)
    requires Valid(c) && slice < 4 && lane < c.nbLanes && PassOffset(pass, slice) <= n <= SegmentSize(c) && |mem| >= Total(c)
    ensures |r| == |mem|
    decreases n
  {
    if n == PassOffset(pass, slice) then mem
    else Step(c, mx, Lane(c, mx, mem, pass, slice, lane, n - 1), Position(pass, slice, lane, n - 1))
  }

  /** The first n lanes filled one after the other. */
  function Lanes<B>(c: Config, mx: Mixer<B>, mem: seq<B>, pass: nat, slice: nat, n: nat): (r: seq<B>)
    requires Valid(c) && slice < 4 && n <= c.nbLanes && |mem| >= Total(c)
    ensures |r| == |mem|
    decreases n
  {
    Sizes(c);
    if n == 0 then mem else Lane(c, mx, Lanes(c, mx, mem, pass, slice, n - 1), pass, slice, n - 1, SegmentSize(c))
  }

  /** The slices of a pass, and the passes. */
  function Slices<B>(c: Config, mx: Mixer<B>, mem: seq<B>, pass: nat, n: nat): (r: seq<B>)
    requires Valid(c) && n <= 4 && |mem| >= Total(c)
    ensures |r| == |mem|
    decreases n
  {
    if n == 0 then mem else Lanes(c, mx, Slices(c, mx, mem, pass, n - 1), pass, n - 1, c.nbLanes)
  }

  function Passes<B>(c: Config, mx: Mixer<B>, mem: seq<B>, n: nat): (r: seq<B>)
    requires Valid(c) && |mem| >= Total(c)
    ensures |r| == |mem|
    decreases n
  {
    if n == 0 then mem else Slices(c, mx, Passes(c, mx, mem, n - 1), n - 1, 4)
  }

  // The loops

  method FillBlock<B>(blocks: array<B>, c: Config, mx: Mixer<B>, p: Position, seed: u64)
    requires Valid(c) && InRange(c, p) && blocks.Length >= Total(c)
    requires 0 <= Previous(c, p) < Total(c) && seed == Seed(c, mx, blocks[Previous(c, p)], p)
    modifies blocks
    ensures blocks[..] == Step(c, mx, old(blocks[..]), p)
  {
    InMemory(c, p, seed);
    hide Previous, Current, Reference, Total, Seed, InRange;
    var current, reference := Current(c, p), Reference(c, p, seed);
    ghost var mem := blocks[..];
    var tmp := blocks[Previous(c, p)];
    tmp := mx.xor(tmp, blocks[reference]);
    if p.pass == 0 {
      blocks[current] := tmp;
    } else {
      blocks[current] := mx.xor(blocks[current], tmp);
    }
    tmp := mx.rounds(tmp);
    blocks[current] := mx.xor(blocks[current], tmp);
    assert blocks[..] == mem[current := blocks[current]];
  }

  /** Fills or renews the index block. */
  method Refresh<B>(c: Config, mx: Mixer<B>, pass: nat, segment: nat, slice: nat, indexCtr: nat) returns (indexBlock: B)
    requires Valid(c)
    ensures indexBlock == IndexBlock(c, mx, pass, segment, slice, indexCtr)
  {
    hide Total;
    var a := new nat[128](_ => 0);
    a[0], a[1], a[2], a[3] := pass, segment, slice, Total(c);
    a[4], a[5], a[6] := c.nbPasses, c.algorithm, indexCtr;
    assert a[..] == IndexWords(c, pass, segment, slice, indexCtr);
    indexBlock := mx.block(a[..]);
    var tmp := indexBlock;
    indexBlock := mx.rounds(indexBlock);
    indexBlock := mx.xor(indexBlock, tmp);
    tmp := indexBlock;
    indexBlock := mx.rounds(indexBlock);
    indexBlock := mx.xor(indexBlock, tmp);
  }

  method FillSegment<B>(blocks: array<B>, c: Config, mx: Mixer<B>, pass: nat, slice: nat, segment: nat, constantTime: bool)
    requires Valid(c) && slice < 4 && segment < c.nbLanes && blocks.Length >= Total(c)
    requires constantTime == ConstantTime(c, pass, slice)
    modifies blocks
    ensures PassOffset(pass, slice) <= SegmentSize(c)
    ensures blocks[..] == Lane(c, mx, old(blocks[..]), pass, slice, segment, SegmentSize(c))
  {
    hide *;
    Sizes(c);
    Offset(c, pass, slice);
    var indexBlock := mx.block(seq(128, _ => 0));
    var indexCtr := 1;
    ghost var mem := blocks[..];
    var passOffset := PassOffset(pass, slice);
    LaneStart(c, mx, mem, pass, slice, segment);
    for block := passOffset to SegmentSize(c)
      invariant blocks[..] == Lane(c, mx, mem, pass, slice, segment, block)
      invariant constantTime ==> indexCtr == 1 + (if block == passOffset then 0 else (block - 1) / 128 + 1)
      invariant constantTime && block > passOffset ==> indexBlock == IndexBlock(c, mx, pass, segment, slice, (block - 1) / 128 + 1)
    {
      var p := Position(pass, slice, segment, block);
      RangeIs(c, p);
      InMemory(c, p, 0);
      var seed: u64;
      if constantTime {
        WhenToRefresh(block);
        if block == passOffset || block % 128 == 0 {
          indexBlock := Refresh(c, mx, pass, segment, slice, indexCtr);
          indexCtr := indexCtr + 1;
        }
        seed := mx.word(indexBlock, block % 128);
      } else {
        seed := mx.word(blocks[Previous(c, p)], 0);
      }
      SeedIs(c, mx, blocks[Previous(c, p)], p);
      FillBlock(blocks, c, mx, p, seed);
      LaneNext(c, mx, mem, p);
    }
  }

  lemma Offset(c: Config, pass: nat, slice: nat)
    requires Valid(c) && 2 <= SegmentSize(c)
    ensures PassOffset(pass, slice) <= 2 <= SegmentSize(c)
  {
  }

  lemma LaneStart<B>(c: Config, mx: Mixer<B>, mem: seq<B>, pass: nat, slice: nat, lane: nat)
    requires Valid(c) && slice < 4 && lane < c.nbLanes && PassOffset(pass, slice) <= SegmentSize(c) && |mem| >= Total(c)
    ensures Lane(c, mx, mem, pass, slice, lane, PassOffset(pass, slice)) == mem
  {
  }

  lemma RangeIs(c: Config, p: Position)
    requires Valid(c) && p.slice < 4 && p.lane < c.nbLanes && PassOffset(p.pass, p.slice) <= p.block < SegmentSize(c)
    ensures InRange(c, p)
  {
  }

  lemma SeedIs<B>(c: Config, mx: Mixer<B>, previous: B, p: Position)
    requires Valid(c)
    ensures Seed(c, mx, previous, p) == if ConstantTime(c, p.pass, p.slice)
      then mx.word(IndexBlock(c, mx, p.pass, p.lane, p.slice, p.block / 128 + 1), p.block % 128) else mx.word(previous, 0)
  {
    hide IndexBlock;
  }

  /** When the index block is renewed: at the start, and every 128 blocks. */
  lemma WhenToRefresh(block: nat)
    ensures block < 3 ==> block / 128 == 0
    ensures block > 0 ==> block / 128 == (block - 1) / 128 + if block % 128 == 0 then 1 else 0
  {
  }

  /** The flag that the loops carry along is the condition on the position. */
  lemma FlagStep(c: Config, pass: nat, slice: nat)
    ensures ConstantTime(c, 0, 0) == (c.algorithm != ARGON2_D) && ConstantTime(c, 0, 1) == ConstantTime(c, 0, 0)
    ensures slice > 0 ==>
      ConstantTime(c, pass, slice) == if slice == 2 && c.algorithm == ARGON2_ID then false else ConstantTime(c, pass, slice - 1)
    ensures slice >= 3 ==> ConstantTime(c, pass + 1, 0) == ConstantTime(c, pass, slice)
  {
  }

  lemma LanesNext<B>(c: Config, mx: Mixer<B>, mem: seq<B>, pass: nat, slice: nat, n: nat)
    requires Valid(c) && slice < 4 && n < c.nbLanes && |mem| >= Total(c)
    ensures Lanes(c, mx, mem, pass, slice, 0) == mem && PassOffset(pass, slice) <= SegmentSize(c)
    ensures Lanes(c, mx, mem, pass, slice, n + 1) == Lane(c, mx, Lanes(c, mx, mem, pass, slice, n), pass, slice, n, SegmentSize(c))
  {
    Sizes(c);
    hide Lane, SegmentSize;
  }

  method FillSlice<B>(blocks: array<B>, c: Config, mx: Mixer<B>, pass: nat, slice: nat, constantTime: bool)
    requires Valid(c) && slice < 4 && blocks.Length >= Total(c) && constantTime == ConstantTime(c, pass, slice)
    modifies blocks
    ensures blocks[..] == Lanes(c, mx, old(blocks[..]), pass, slice, c.nbLanes)
  {
    hide ConstantTime, Total, SegmentSize, Lane, Lanes;
    ghost var mem := blocks[..];
    LanesNext(c, mx, mem, pass, slice, 0);
    for segment := 0 to c.nbLanes
      invariant blocks[..] == Lanes(c, mx, mem, pass, slice, segment)
    {
      FillSegment(blocks, c, mx, pass, slice, segment, constantTime);
      LanesNext(c, mx, mem, pass, slice, segment);
    }
  }

  method FillPass<B>(blocks: array<B>, c: Config, mx: Mixer<B>, pass: nat, flag: bool) returns (constantTime: bool)
    requires Valid(c) && blocks.Length >= Total(c) && flag == ConstantTime(c, pass, 0)
    modifies blocks
    ensures blocks[..] == Slices(c, mx, old(blocks[..]), pass, 4) && constantTime == ConstantTime(c, pass + 1, 0)
  {
    hide ConstantTime, Total, Lanes;
    constantTime := flag;
    for slice := 0 to 4
      invariant blocks[..] == Slices(c, mx, old(blocks[..]), pass, slice)
      invariant constantTime == ConstantTime(c, pass, if slice == 0 then 0 else slice - 1)
    {
      FlagStep(c, pass, slice);
      if slice == 2 && c.algorithm == ARGON2_ID {
        constantTime := false;
      }
      FillSlice(blocks, c, mx, pass, slice, constantTime);
    }
    FlagStep(c, pass, 3);
  }

  /** The whole filling. */
  method Fill<B>(blocks: array<B>, c: Config, mx: Mixer<B>)
    requires Valid(c) && blocks.Length >= Total(c)
    modifies blocks
    ensures blocks[..] == Passes(c, mx, old(blocks[..]), c.nbPasses)
  {
    hide ConstantTime, Total, Slices;
    var constantTime := c.algorithm != ARGON2_D;
    FlagStep(c, 0, 0);
    for pass := 0 to c.nbPasses
      invariant blocks[..] == Passes(c, mx, old(blocks[..]), pass)
      invariant constantTime == ConstantTime(c, pass, 0)
    {
      constantTime := FillPass(blocks, c, mx, pass, constantTime);
    }
  }

  // Interleaving the lanes of a slice

  /** How far each lane has got. */
  predicate Counts(c: Config, pass: nat, slice: nat, counts: seq<nat>)
    requires Valid(c)
  {
    |counts| == c.nbLanes && forall l :: 0 <= l < c.nbLanes ==> PassOffset(pass, slice) <= counts[l] <= SegmentSize(c)
  }

  /** Every lane has got as far in the common memory as it would alone. */
  ghost predicate Merged<B>(c: Config, mx: Mixer<B>, mem0: seq<B>, mem: seq<B>, pass: nat, slice: nat, counts: seq<nat>)
    requires Valid(c) && slice < 4 && |mem0| >= Total(c) && Counts(c, pass, slice, counts)
  {
    && |mem| == |mem0|
    && (forall i :: Total(c) <= i < |mem| ==> mem[i] == mem0[i])
    && (forall l: nat, r: nat :: l < c.nbLanes && r < LaneSize(c) ==> AtLane(c, mx, mem0, mem, pass, slice, l, r, counts[l]))
  }

  ghost predicate AtLane<B>(c: Config, mx: Mixer<B>, mem0: seq<B>, mem: seq<B>, pass: nat, slice: nat, l: nat, r: nat, n: nat)
    requires Valid(c) && slice < 4 && |mem0| >= Total(c) && |mem| == |mem0| && l < c.nbLanes && r < LaneSize(c)
    requires PassOffset(pass, slice) <= n <= SegmentSize(c)
  {
    Index(c, l, r);
    mem[l * LaneSize(c) + r] == Lane(c, mx, mem0, pass, slice, l, n)[l * LaneSize(c) + r]
  }

  /** Filling one lane changes nothing outside its current segment. */
  lemma {:induction false} LaneFrame<B>(c: Config, mx: Mixer<B>, mem: seq<B>, pass: nat, slice: nat, lane: nat, n: nat, l: nat, r: nat)
    requires Valid(c) && slice < 4 && lane < c.nbLanes && PassOffset(pass, slice) <= n <= SegmentSize(c) && |mem| >= Total(c)
    requires l < c.nbLanes && r < LaneSize(c)
    requires l != lane || !(slice * SegmentSize(c) <= r < (slice + 1) * SegmentSize(c))
    ensures 0 <= l * LaneSize(c) + r < Total(c)
    ensures Lane(c, mx, mem, pass, slice, lane, n)[l * LaneSize(c) + r] == mem[l * LaneSize(c) + r]
    decreases n
  {
    hide SegmentSize, LaneSize, Total, Place, Seed, Mix, Reference, Previous;
    Index(c, l, r);
    if n == PassOffset(pass, slice) {
    } else {
      LaneFrame(c, mx, mem, pass, slice, lane, n - 1, l, r);
      var p := Position(pass, slice, lane, n - 1);
      InMemory(c, p, 0);
      if Current(c, p) == l * LaneSize(c) + r {
        IndexUnique(c, lane, Place(c, p), l, r);
      }
    }
  }

  /** In a merged memory a lane's next step does what it would do alone. */
  lemma StepAlone<B>(c: Config, mx: Mixer<B>, mem0: seq<B>, mem: seq<B>, pass: nat, slice: nat, counts: seq<nat>, l: nat)
    requires Valid(c) && slice < 4 && |mem0| >= Total(c) && Counts(c, pass, slice, counts) && l < c.nbLanes
    requires counts[l] < SegmentSize(c) && Merged(c, mx, mem0, mem, pass, slice, counts)
    ensures var p := Position(pass, slice, l, counts[l]);
            && 0 <= Current(c, p) < Total(c)
            && Step(c, mx, mem, p)[Current(c, p)] == Lane(c, mx, mem0, pass, slice, l, counts[l] + 1)[Current(c, p)]
  {
    hide *;
    CountAt(c, pass, slice, counts, l);
    MergedAt(c, mx, mem0, mem, pass, slice, counts, l, 0);
    var p := Position(pass, slice, l, counts[l]);
    var alone := Lane(c, mx, mem0, pass, slice, l, counts[l]);
    InMemory(c, p, 0);
    LaneNext(c, mx, mem0, p);
    CurrentIs(c, p);
    MergedAt(c, mx, mem0, mem, pass, slice, counts, l, Place(c, p));
    MergedAt(c, mx, mem0, mem, pass, slice, counts, l, PreviousPlace(c, p));
    var seed := Seed(c, mx, mem[Previous(c, p)], p);
    InMemory(c, p, seed);
    SameReference(c, mx, mem0, mem, pass, slice, counts, l, p, seed);
    StepIs(c, mx, mem, p, seed);
    StepIs(c, mx, alone, p, seed);
  }

  lemma CountAt(c: Config, pass: nat, slice: nat, counts: seq<nat>, l: nat)
    requires Valid(c) && slice < 4 && Counts(c, pass, slice, counts) && l < c.nbLanes
    ensures |counts| == c.nbLanes && PassOffset(pass, slice) <= counts[l] <= SegmentSize(c) && 0 < LaneSize(c)
    ensures counts[l] < SegmentSize(c) ==> InRange(c, Position(pass, slice, l, counts[l]))
  {
    Sizes(c);
  }

  /** At any place of any lane, the merged memory holds what the lane alone would. */
  lemma MergedAt<B>(c: Config, mx: Mixer<B>, mem0: seq<B>, mem: seq<B>, pass: nat, slice: nat, counts: seq<nat>, l: nat, r: nat)
    requires Valid(c) && slice < 4 && |mem0| >= Total(c) && Counts(c, pass, slice, counts) && l < c.nbLanes && r < LaneSize(c)
    requires Merged(c, mx, mem0, mem, pass, slice, counts)
    ensures |mem| == |mem0| && |counts| == c.nbLanes && PassOffset(pass, slice) <= counts[l] <= SegmentSize(c)
    ensures 0 <= l * LaneSize(c) + r < Total(c)
    ensures mem[l * LaneSize(c) + r] == Lane(c, mx, mem0, pass, slice, l, counts[l])[l * LaneSize(c) + r]
  {
    hide LaneSize, Total, SegmentSize, PassOffset, Lane;
    assert AtLane(c, mx, mem0, mem, pass, slice, l, r, counts[l]);
    Index(c, l, r);
  }

  /** The reference block is the same in the merged memory and for the lane alone. */
  lemma SameReference<B>(c: Config, mx: Mixer<B>, mem0: seq<B>, mem: seq<B>, pass: nat, slice: nat, counts: seq<nat>, l: nat, p: Position, seed: u64)
    requires Valid(c) && slice < 4 && |mem0| >= Total(c) && Counts(c, pass, slice, counts) && l < c.nbLanes
    requires |counts| == c.nbLanes && PassOffset(pass, slice) <= counts[l] < SegmentSize(c)
    requires Merged(c, mx, mem0, mem, pass, slice, counts)
    requires p == Position(pass, slice, l, counts[l]) && InRange(c, p)
    ensures |mem| == |mem0| && 0 <= Reference(c, p, seed) < Total(c)
    ensures mem[Reference(c, p, seed)] == Lane(c, mx, mem0, pass, slice, l, counts[l])[Reference(c, p, seed)]
  {
    hide *;
    InMemory(c, p, seed);
    ReferenceIsReady(c, p, seed);
    ReferenceIs(c, p, seed);
    ReadyMeans(c, p, ReferenceLane(c, p, seed), ReferencePlace(c, p, seed));
    var k, r := ReferenceLane(c, p, seed), ReferencePlace(c, p, seed);
    CountAt(c, pass, slice, counts, k);
    MergedAt(c, mx, mem0, mem, pass, slice, counts, k, r);
    if k != l {
      LaneFrame(c, mx, mem0, pass, slice, k, counts[k], k, r);
      LaneFrame(c, mx, mem0, pass, slice, l, counts[l], k, r);
    }
  }

  lemma ReadyMeans(c: Config, p: Position, k: nat, r: int)
    requires Valid(c) && InRange(c, p) && Ready(c, p, k, r)
    ensures k < c.nbLanes && 0 <= r < LaneSize(c)
    ensures k != p.lane ==> !(p.slice * SegmentSize(c) <= r < (p.slice + 1) * SegmentSize(c))
  {
  }

  lemma LaneNext<B>(c: Config, mx: Mixer<B>, mem: seq<B>, p: Position)
    requires Valid(c) && InRange(c, p) && |mem| >= Total(c)
    ensures Lane(c, mx, mem, p.pass, p.slice, p.lane, p.block + 1) == Step(c, mx, Lane(c, mx, mem, p.pass, p.slice, p.lane, p.block), p)
  {
  }

  lemma CurrentIs(c: Config, p: Position)
    requires Valid(c)
    ensures Current(c, p) == p.lane * LaneSize(c) + Place(c, p)
  {
  }

  lemma ReferenceIs(c: Config, p: Position, seed: u64)
    requires Valid(c)
    ensures Reference(c, p, seed) == ReferenceLane(c, p, seed) * LaneSize(c) + ReferencePlace(c, p, seed)
  {
  }

  lemma StepIs<B>(c: Config, mx: Mixer<B>, mem: seq<B>, p: Position, seed: u64)
    requires Valid(c) && InRange(c, p) && |mem| >= Total(c) && 0 <= Previous(c, p) < Total(c) && seed == Seed(c, mx, mem[Previous(c, p)], p)
    requires 0 <= Current(c, p) < Total(c) && 0 <= Reference(c, p, seed) < Total(c)
    ensures Step(c, mx, mem, p)
         == mem[Current(c, p) := Mix(mx, p.pass, mem[Previous(c, p)], mem[Reference(c, p, seed)], mem[Current(c, p)])]
  {
  }

  /** One more step of any lane keeps the memory merged. */
  lemma MergedStep<B>(c: Config, mx: Mixer<B>, mem0: seq<B>, mem: seq<B>, pass: nat, slice: nat, counts: seq<nat>, l: nat)
    requires Valid(c) && slice < 4 && |mem0| >= Total(c) && Counts(c, pass, slice, counts) && l < c.nbLanes
    requires counts[l] < SegmentSize(c) && Merged(c, mx, mem0, mem, pass, slice, counts)
    ensures var p, counts' := Position(pass, slice, l, counts[l]), counts[l := counts[l] + 1];
            && Counts(c, pass, slice, counts') && Merged(c, mx, mem0, Step(c, mx, mem, p), pass, slice, counts')
  {
    hide SegmentSize, LaneSize, Total, Place, Seed, Mix, Reference, Previous, Lane, ReferenceLane, ReferencePlace, Current, Step, PassOffset;
    var p, counts' := Position(pass, slice, l, counts[l]), counts[l := counts[l] + 1];
    var mem' := Step(c, mx, mem, p);
    InMemory(c, p, 0);
    CurrentIs(c, p);
    StepAlone(c, mx, mem0, mem, pass, slice, counts, l);
    LaneNext(c, mx, mem0, p);
    StepFrame(c, mx, mem, p);
    StepFrame(c, mx, Lane(c, mx, mem0, pass, slice, l, counts[l]), p);
    forall k: nat, r: nat | k < c.nbLanes && r < LaneSize(c)
      ensures AtLane(c, mx, mem0, mem', pass, slice, k, r, counts'[k])
    {
      MergedAt(c, mx, mem0, mem, pass, slice, counts, k, r);
      if k * LaneSize(c) + r == Current(c, p) {
        IndexUnique(c, k, r, l, Place(c, p));
      }
    }
  }

  lemma StepFrame<B>(c: Config, mx: Mixer<B>, mem: seq<B>, p: Position)
    requires Valid(c) && InRange(c, p) && |mem| >= Total(c)
    ensures 0 <= Current(c, p) < Total(c)
    ensures forall i :: 0 <= i < |mem| && i != Current(c, p) ==> Step(c, mx, mem, p)[i] == mem[i]
  {
    InMemory(c, p, 0);
    hide Seed, Mix, Total, Current, Reference, Previous;
  }

  /** Lanes taking turns in the order of a schedule. */
  function Interleaved<B>(c: Config, mx: Mixer<B>, mem: seq<B>, pass: nat, slice: nat, counts: seq<nat>, schedule: seq<nat>): (r: seq<B>)
    requires Valid(c) && slice < 4 && |mem| >= Total(c) && Counts(c, pass, slice, counts) && Fits(c, pass, slice, counts, schedule)
    ensures |r| == |mem|
    decreases |schedule|
  {
    if schedule == [] then mem
    else
      var l := schedule[0];
      Interleaved(c, mx, Step(c, mx, mem, Position(pass, slice, l, counts[l])), pass, slice, counts[l := counts[l] + 1], schedule[1..])
  }

  /** The schedule names lanes that still have blocks to fill, and leaves none unfilled. */
  predicate Fits(c: Config, pass: nat, slice: nat, counts: seq<nat>, schedule: seq<nat>)
    requires Valid(c) && Counts(c, pass, slice, counts)
    decreases |schedule|
  {
    if schedule == [] then forall l :: 0 <= l < c.nbLanes ==> counts[l] == SegmentSize(c)
    else schedule[0] < c.nbLanes && counts[schedule[0]] < SegmentSize(c)
         && Fits(c, pass, slice, counts[schedule[0] := counts[schedule[0]] + 1], schedule[1..])
  }

  lemma {:induction false} InterleavedMerged<B>(c: Config, mx: Mixer<B>, mem0: seq<B>, mem: seq<B>, pass: nat, slice: nat,
                                                counts: seq<nat>, schedule: seq<nat>)
    requires Valid(c) && slice < 4 && |mem0| >= Total(c) && Counts(c, pass, slice, counts) && Fits(c, pass, slice, counts, schedule)
    requires |mem| == |mem0| && Merged(c, mx, mem0, mem, pass, slice, counts)
    ensures Finished(c, mx, mem0, Interleaved(c, mx, mem, pass, slice, counts, schedule), pass, slice)
    decreases |schedule|
  {
    hide Merged, Step, SegmentSize, Total, Finished;
    if schedule == [] {
      AllFinished(c, mx, mem0, mem, pass, slice, counts);
    } else {
      var l := schedule[0];
      MergedStep(c, mx, mem0, mem, pass, slice, counts, l);
      InterleavedMerged(c, mx, mem0, Step(c, mx, mem, Position(pass, slice, l, counts[l])), pass, slice, counts[l := counts[l] + 1], schedule[1..]);
    }
  }

  /** Every lane is as it would be if it had been filled alone. */
  ghost predicate Finished<B>(c: Config, mx: Mixer<B>, mem0: seq<B>, mem: seq<B>, pass: nat, slice: nat)
    requires Valid(c) && slice < 4 && |mem0| >= Total(c)
  {
    PassOffset(pass, slice) <= SegmentSize(c) && Merged(c, mx, mem0, mem, pass, slice, seq(c.nbLanes, _ => SegmentSize(c)))
  }

  lemma AllFinished<B>(c: Config, mx: Mixer<B>, mem0: seq<B>, mem: seq<B>, pass: nat, slice: nat, counts: seq<nat>)
    requires Valid(c) && slice < 4 && |mem0| >= Total(c) && Counts(c, pass, slice, counts)
    requires Merged(c, mx, mem0, mem, pass, slice, counts) && forall l :: 0 <= l < c.nbLanes ==> counts[l] == SegmentSize(c)
    ensures Finished(c, mx, mem0, mem, pass, slice)
  {
    hide Merged, SegmentSize, Total, PassOffset;
    assert counts[0] == SegmentSize(c);
    assert counts == seq(c.nbLanes, _ => SegmentSize(c));
  }

  /** Two memories in which every lane is finished are the same. */
  lemma FinishedUnique<B>(c: Config, mx: Mixer<B>, mem0: seq<B>, m1: seq<B>, m2: seq<B>, pass: nat, slice: nat)
    requires Valid(c) && slice < 4 && |mem0| >= Total(c)
    requires Finished(c, mx, mem0, m1, pass, slice) && Finished(c, mx, mem0, m2, pass, slice)
    ensures m1 == m2
  {
    hide *;
    forall i | 0 <= i < |mem0| ensures |m1| == |m2| == |mem0| && m1[i] == m2[i] {
      SameAt(c, mx, mem0, m1, m2, pass, slice, i);
    }
    FinishedRest(c, mx, mem0, m1, pass, slice);
    FinishedRest(c, mx, mem0, m2, pass, slice);
  }

  lemma SameAt<B>(c: Config, mx: Mixer<B>, mem0: seq<B>, m1: seq<B>, m2: seq<B>, pass: nat, slice: nat, i: nat)
    requires Valid(c) && slice < 4 && |mem0| >= Total(c) && i < |mem0|
    requires Finished(c, mx, mem0, m1, pass, slice) && Finished(c, mx, mem0, m2, pass, slice)
    ensures |m1| == |m2| == |mem0| && m1[i] == m2[i]
  {
    hide Lane, SegmentSize, PassOffset, LaneSize, Total, Finished;
    Sizes(c);
    FinishedRest(c, mx, mem0, m1, pass, slice);
    FinishedRest(c, mx, mem0, m2, pass, slice);
    if i < Total(c) {
      var l, r := i / LaneSize(c), i % LaneSize(c);
      TotalIs(c);
      LaneOf(i, LaneSize(c), c.nbLanes);
      FinishedAt(c, mx, mem0, m1, pass, slice, l, r);
      FinishedAt(c, mx, mem0, m2, pass, slice, l, r);
    }
  }

  lemma FinishedAt<B>(c: Config, mx: Mixer<B>, mem0: seq<B>, m: seq<B>, pass: nat, slice: nat, l: nat, r: nat)
    requires Valid(c) && slice < 4 && |mem0| >= Total(c) && Finished(c, mx, mem0, m, pass, slice)
    requires l < c.nbLanes && r < LaneSize(c)
    ensures |m| == |mem0| && PassOffset(pass, slice) <= SegmentSize(c) && AtLane(c, mx, mem0, m, pass, slice, l, r, SegmentSize(c))
  {
    hide AtLane, Lane, SegmentSize, PassOffset, LaneSize, Total;
    var counts := seq(c.nbLanes, _ => SegmentSize(c));
    assert counts[l] == SegmentSize(c);
    assert AtLane(c, mx, mem0, m, pass, slice, l, r, counts[l]);
  }

  lemma FinishedRest<B>(c: Config, mx: Mixer<B>, mem0: seq<B>, m: seq<B>, pass: nat, slice: nat)
    requires Valid(c) && slice < 4 && |mem0| >= Total(c) && Finished(c, mx, mem0, m, pass, slice)
    ensures |m| == |mem0| && forall i :: Total(c) <= i < |m| ==> m[i] == mem0[i]
  {
  }

  lemma TotalIs(c: Config)
    requires Valid(c)
    ensures Total(c) == LaneSize(c) * c.nbLanes
  {
  }

  lemma LaneOf(i: nat, size: nat, n: nat)
    requires size > 0 && i < size * n
    ensures 0 <= i / size < n && 0 <= i % size < size && (i / size) * size + i % size == i
  {
  }

  /** A lane filled in a merged memory. */
  lemma {:induction false} LaneMerged<B>(c: Config, mx: Mixer<B>, mem0: seq<B>, mem: seq<B>, pass: nat, slice: nat, counts: seq<nat>, l: nat, n: nat)
    requires Valid(c) && slice < 4 && |mem0| >= Total(c) && Counts(c, pass, slice, counts) && l < c.nbLanes
    requires counts[l] == PassOffset(pass, slice) <= n <= SegmentSize(c)
    requires |mem| == |mem0| && Merged(c, mx, mem0, mem, pass, slice, counts)
    ensures Counts(c, pass, slice, counts[l := n]) && Merged(c, mx, mem0, Lane(c, mx, mem, pass, slice, l, n), pass, slice, counts[l := n])
    decreases n
  {
    hide Merged, Step, SegmentSize, Total, Lane, PassOffset;
    if n == PassOffset(pass, slice) {
      LaneStart(c, mx, mem, pass, slice, l);
      assert counts[l := n] == counts;
    } else {
      LaneMerged(c, mx, mem0, mem, pass, slice, counts, l, n - 1);
      MergedStep(c, mx, mem0, Lane(c, mx, mem, pass, slice, l, n - 1), pass, slice, counts[l := n - 1], l);
      LaneNext(c, mx, mem, Position(pass, slice, l, n - 1));
      assert counts[l := n - 1][l := n] == counts[l := n];
    }
  }

  function Progress(c: Config, pass: nat, slice: nat, n: nat): seq<nat>
    requires Valid(c)
  {
    seq(c.nbLanes, l => Reached(c, pass, slice, n, l))
  }

  function Reached(c: Config, pass: nat, slice: nat, n: nat, l: int): nat
    requires Valid(c)
  {
    if l < n then SegmentSize(c) else PassOffset(pass, slice)
  }

  lemma {:induction false} LanesMerged<B>(c: Config, mx: Mixer<B>, mem: seq<B>, pass: nat, slice: nat, n: nat)
    requires Valid(c) && slice < 4 && |mem| >= Total(c) && n <= c.nbLanes && PassOffset(pass, slice) <= SegmentSize(c)
    ensures Merged(c, mx, mem, Lanes(c, mx, mem, pass, slice, n), pass, slice, Progress(c, pass, slice, n))
    decreases n
  {
    hide Merged, SegmentSize, Total, Lane, Lanes, PassOffset;
    if n == 0 {
      NotBegun(c, mx, mem, pass, slice);
      assert Progress(c, pass, slice, 0) == seq(c.nbLanes, _ => PassOffset(pass, slice));
      LanesNext(c, mx, mem, pass, slice, 0);
    } else {
      LanesMerged(c, mx, mem, pass, slice, n - 1);
      LanesNext(c, mx, mem, pass, slice, n - 1);
      LaneMerged(c, mx, mem, Lanes(c, mx, mem, pass, slice, n - 1), pass, slice, Progress(c, pass, slice, n - 1), n - 1, SegmentSize(c));
      assert Progress(c, pass, slice, n - 1)[n - 1 := SegmentSize(c)] == Progress(c, pass, slice, n);
    }
  }

  /** Filling the lanes of a slice in any interleaving gives the memory that the loop over the lanes gives. */
  lemma OrderIsIrrelevant<B>(c: Config, mx: Mixer<B>, mem: seq<B>, pass: nat, slice: nat, schedule: seq<nat>)
    requires Valid(c) && slice < 4 && |mem| >= Total(c) && PassOffset(pass, slice) <= SegmentSize(c)
    requires Fits(c, pass, slice, seq(c.nbLanes, _ => PassOffset(pass, slice)), schedule)
    ensures Interleaved(c, mx, mem, pass, slice, seq(c.nbLanes, _ => PassOffset(pass, slice)), schedule)
         == Lanes(c, mx, mem, pass, slice, c.nbLanes)
  {
    hide Interleaved, Fits, Merged, SegmentSize, Total, PassOffset, Lanes;
    var counts := seq(c.nbLanes, _ => PassOffset(pass, slice));
    NotBegun(c, mx, mem, pass, slice);
    InterleavedMerged(c, mx, mem, mem, pass, slice, counts, schedule);
    LanesMerged(c, mx, mem, pass, slice, c.nbLanes);
    assert Progress(c, pass, slice, c.nbLanes) == seq(c.nbLanes, _ => SegmentSize(c));
    FinishedUnique(c, mx, mem, Interleaved(c, mx, mem, pass, slice, counts, schedule), Lanes(c, mx, mem, pass, slice, c.nbLanes), pass, slice);
  }

  lemma NotBegun<B>(c: Config, mx: Mixer<B>, mem: seq<B>, pass: nat, slice: nat)
    requires Valid(c) && slice < 4 && |mem| >= Total(c) && PassOffset(pass, slice) <= SegmentSize(c)
    ensures Merged(c, mx, mem, mem, pass, slice, seq(c.nbLanes, _ => PassOffset(pass, slice)))
  {
  }
}
