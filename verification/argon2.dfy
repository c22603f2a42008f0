/** The order in which Argon2 fills its memory, and the blocks that each step may refer to. What a block is, and how two
    are mixed, are parameters. */
module Argon2 {
  import opened Arith
  import opened Limbs

  datatype Config = Config(nbBlocks: u32, nbLanes: u32, nbPasses: u32, algorithm: u32)

  const ARGON2_D: u32 := 0
  const ARGON2_ID: u32 := 2

  /** What the header demands of a configuration. */
  predicate Valid(c: Config) {
    c.nbLanes > 0 && c.nbBlocks >= 8 * c.nbLanes
  }

  function SegmentSize(c: Config): nat
    requires Valid(c)
  {
    c.nbBlocks / c.nbLanes / 4
  }

  function LaneSize(c: Config): nat
    requires Valid(c)
  {
    SegmentSize(c) * 4
  }

  function Total(c: Config): nat
    requires Valid(c)
  {
    LaneSize(c) * c.nbLanes
  }

  lemma Sizes(c: Config)
    requires Valid(c)
    ensures 2 <= SegmentSize(c) && 8 <= LaneSize(c) < 0x1_0000_0000 && Total(c) <= c.nbBlocks < 0x1_0000_0000
  {
    var q := c.nbBlocks / c.nbLanes;
    DivNat(c.nbBlocks, c.nbLanes);
    if q < 8 {
      assert c.nbBlocks == c.nbLanes * q + c.nbBlocks % c.nbLanes;
      MulLe(c.nbLanes, q, 7);
    }
    MulLe(c.nbLanes, LaneSize(c), q);
  }

  /** The block about to be filled. */
  datatype Position = Position(pass: nat, slice: nat, lane: nat, block: nat)

  function PassOffset(pass: nat, slice: nat): nat {
    if pass == 0 && slice == 0 then 2 else 0
  }

  predicate InRange(c: Config, p: Position)
    requires Valid(c)
  {
    p.slice < 4 && p.lane < c.nbLanes && PassOffset(p.pass, p.slice) <= p.block < SegmentSize(c)
  }

  /** Where the current block lies in its lane. */
  function Place(c: Config, p: Position): nat
    requires Valid(c)
  {
    p.slice * SegmentSize(c) + p.block
  }

  function Current(c: Config, p: Position): nat
    requires Valid(c)
  {
    p.lane * LaneSize(c) + Place(c, p)
  }

  function Previous(c: Config, p: Position): int
    requires Valid(c)
  {
    if p.block == 0 && p.slice == 0 then Current(c, p) + LaneSize(c) - 1 else Current(c, p) - 1
  }

  function Wrap32(x: int): u32 {
    x % 0x1_0000_0000
  }

  /** The reference window, in the source's 32-bit arithmetic. */
  function WindowStart(c: Config, p: Position): u32
    requires Valid(c)
  {
    if p.pass == 0 then 0 else Wrap32(((p.slice + 1) % 4) * SegmentSize(c))
  }

  function WindowSize(c: Config, p: Position, lane: nat): u32
    requires Valid(c)
  {
    var nbSegments := if p.pass == 0 then p.slice else 3;
    Wrap32(nbSegments * SegmentSize(c) + (if lane == p.lane then Wrap32(p.block - 1) else if p.block == 0 then Wrap32(-1) else 0))
  }

  function ReferenceLane(c: Config, p: Position, seed: u64): nat
    requires Valid(c)
  {
    if p.pass == 0 && p.slice == 0 then p.lane else (seed / 0x1_0000_0000) % c.nbLanes
  }

  /** Where the reference block lies in its lane. */
  function ReferencePlace(c: Config, p: Position, seed: u64): int
    requires Valid(c)
  {
    var window := WindowSize(c, p, ReferenceLane(c, p, seed));
    var j1 := seed % 0x1_0000_0000;
    var x := (j1 * j1) / 0x1_0000_0000;
    var y := (window * x) / 0x1_0000_0000;
    Sizes(c);
    (WindowStart(c, p) + (Wrap32(window - 1) - y)) % LaneSize(c)
  }

  function Reference(c: Config, p: Position, seed: u64): int
    requires Valid(c)
  {
    ReferenceLane(c, p, seed) * LaneSize(c) + ReferencePlace(c, p, seed)
  }

  /** The window in plain arithmetic: all finished slices, and of the own segment all but the last block filled. */
  function PlainWindow(c: Config, p: Position, lane: nat): int
    requires Valid(c)
  {
    (if p.pass == 0 then p.slice else 3) * SegmentSize(c) + (if lane == p.lane then p.block - 1 else if p.block == 0 then -1 else 0)
  }

  /** The 32-bit window does not wrap: a borrow past zero is paid back by the finished slices. */
  lemma WindowIsPlain(c: Config, p: Position, lane: nat)
    requires Valid(c) && InRange(c, p) && (p.pass == 0 && p.slice == 0 ==> lane == p.lane)
    ensures WindowSize(c, p, lane) == PlainWindow(c, p, lane) && 0 < PlainWindow(c, p, lane) < LaneSize(c)
  {
    Sizes(c);
    var n, seg := if p.pass == 0 then p.slice else 3, SegmentSize(c);
    MulLe(seg, n, 3);
    assert n > 0 ==> n * seg >= seg by { if n > 0 { MulLe(seg, 1, n); } }
    assert n == 0 ==> n * seg == 0;
    var w := PlainWindow(c, p, lane);
    hide SegmentSize, LaneSize;
    WrapTwice(n * seg, if lane == p.lane then p.block - 1 else if p.block == 0 then -1 else 0);
  }

  lemma WrapTwice(a: int, b: int)
    requires 0 <= a + b < 0x1_0000_0000
    ensures Wrap32(a + Wrap32(b)) == a + b
  {
  }

  /** The selector picks a position inside the window. */
  lemma InWindow(window: nat, seed: u64)
    requires 0 < window < 0x1_0000_0000
    ensures var j1 := seed % 0x1_0000_0000; var x := (j1 * j1) / 0x1_0000_0000;
            0 <= (window * x) / 0x1_0000_0000 < window
  {
    var m, j1 := 0x1_0000_0000, seed % 0x1_0000_0000;
    MulBound(j1, j1, m - 1, m - 1);
    var x := (j1 * j1) / m;
    assert 0 <= x < m;
    MulBound(window, x, window, m - 1);
    assert window * x < window * m by { MulLt(window, x, m); }
    var y := (window * x) / m;
    if y >= window {
      MulLe(m, window, y);
    }
  }

  /** Block r of lane l may be referred to: it lies in a finished slice, or in the own segment before the previous block. */
  predicate Ready(c: Config, p: Position, l: nat, r: int)
    requires Valid(c)
  {
    && l < c.nbLanes && 0 <= r < LaneSize(c)
    && if p.slice * SegmentSize(c) <= r < (p.slice + 1) * SegmentSize(c) then l == p.lane && r < Place(c, p) - 1
       else p.pass > 0 || r < p.slice * SegmentSize(c)
  }

  /** The reference block is ready: filled already, and never in another lane's current slice. */
  lemma ReferenceIsReady(c: Config, p: Position, seed: u64)
    requires Valid(c) && InRange(c, p)
    ensures Ready(c, p, ReferenceLane(c, p, seed), ReferencePlace(c, p, seed))
    ensures p.block == 0 && p.slice > 0 ==> ReferencePlace(c, p, seed) != Place(c, p) - 1
    ensures p.block == 0 && p.slice == 0 ==> ReferencePlace(c, p, seed) != LaneSize(c) - 1
  {
    hide *;
    Sizes(c);
    var lane := ReferenceLane(c, p, seed);
    LaneInRange(c, p, seed);
    WindowIsPlain(c, p, lane);
    var w := PlainWindow(c, p, lane);
    InWindow(w, seed);
    var z := ReferenceOffset(c, p, seed);
    if p.pass == 0 {
      FirstPass(c, p, lane, z);
    } else {
      LaterPass(c, p, lane, z);
    }
  }

  lemma LaneInRange(c: Config, p: Position, seed: u64)
    requires Valid(c) && InRange(c, p)
    ensures ReferenceLane(c, p, seed) < c.nbLanes
    ensures p.pass == 0 && p.slice == 0 ==> ReferenceLane(c, p, seed) == p.lane
  {
  }

  /** How far into the window the selector reaches. */
  lemma ReferenceOffset(c: Config, p: Position, seed: u64) returns (z: nat)
    requires Valid(c) && InRange(c, p)
    ensures z < PlainWindow(c, p, ReferenceLane(c, p, seed))
    ensures ReferencePlace(c, p, seed) == ((if p.pass == 0 then 0 else ((p.slice + 1) % 4) * SegmentSize(c)) + z) % LaneSize(c)
  {
    hide *;
    var lane := ReferenceLane(c, p, seed);
    LaneInRange(c, p, seed);
    WindowIsPlain(c, p, lane);
    Sizes(c);
    StartIsPlain(c, p);
    z := PlaceIn(c, p, seed, lane);
  }

  lemma PlaceIn(c: Config, p: Position, seed: u64, lane: nat) returns (z: nat)
    requires Valid(c) && LaneSize(c) > 0 && lane == ReferenceLane(c, p, seed) && WindowSize(c, p, lane) > 0
    ensures z < WindowSize(c, p, lane) && ReferencePlace(c, p, seed) == (WindowStart(c, p) + z) % LaneSize(c)
  {
    hide WindowSize, WindowStart, ReferenceLane, LaneSize, SegmentSize;
    var w := WindowSize(c, p, lane);
    InWindow(w, seed);
    var j1 := seed % 0x1_0000_0000;
    var y := (w * ((j1 * j1) / 0x1_0000_0000)) / 0x1_0000_0000;
    z := w - 1 - y;
    Unwrapped(w);
    hide Wrap32;
  }

  lemma Unwrapped(w: nat)
    requires 0 < w < 0x1_0000_0000
    ensures Wrap32(w - 1) == w - 1
  {
  }

  lemma StartIsPlain(c: Config, p: Position)
    requires Valid(c)
    ensures WindowStart(c, p) == if p.pass == 0 then 0 else ((p.slice + 1) % 4) * SegmentSize(c)
  {
    Sizes(c);
    var k, seg := (p.slice + 1) % 4, SegmentSize(c);
    MulLe(seg, k, 3);
    assert 0 <= k * seg;
    assert LaneSize(c) == 4 * seg;
  }

  lemma FirstPass(c: Config, p: Position, lane: nat, z: nat)
    requires Valid(c) && InRange(c, p) && p.pass == 0 && lane < c.nbLanes && 2 <= SegmentSize(c)
    requires p.slice == 0 ==> lane == p.lane
    requires z < PlainWindow(c, p, lane) < LaneSize(c)
    ensures Ready(c, p, lane, (0 + z) % LaneSize(c))
    ensures p.block == 0 && p.slice > 0 ==> (0 + z) % LaneSize(c) != Place(c, p) - 1
    ensures !(p.block == 0 && p.slice == 0)
  {
    DivModUnique(z, 0, z, LaneSize(c));
    assert (p.slice + 1) * SegmentSize(c) == p.slice * SegmentSize(c) + SegmentSize(c);
    hide SegmentSize;
  }

  lemma LaterPass(c: Config, p: Position, lane: nat, z: nat)
    requires Valid(c) && InRange(c, p) && p.pass > 0 && lane < c.nbLanes && 2 <= SegmentSize(c)
    requires z < PlainWindow(c, p, lane)
    ensures var r := (((p.slice + 1) % 4) * SegmentSize(c) + z) % LaneSize(c);
            && Ready(c, p, lane, r)
            && (p.block == 0 && p.slice > 0 ==> r != Place(c, p) - 1)
            && (p.block == 0 && p.slice == 0 ==> r != LaneSize(c) - 1)
  {
    var seg := SegmentSize(c);
    assert LaneSize(c) == seg * 4;
    hide SegmentSize, LaneSize;
    assert (p.slice + 1) * seg == p.slice * seg + seg;
    Around(seg, p.slice, z);
    hide Ready;
    AroundReady(c, p, lane, z, seg, (((p.slice + 1) % 4) * seg + z) % (seg * 4));
  }

  lemma AroundReady(c: Config, p: Position, lane: nat, z: nat, seg: nat, r: int)
    requires Valid(c) && InRange(c, p) && p.pass > 0 && lane < c.nbLanes && 2 <= seg == SegmentSize(c) && LaneSize(c) == seg * 4
    requires z < PlainWindow(c, p, lane) && (p.slice + 1) * seg == p.slice * seg + seg
    requires r == if (p.slice + 1) * seg + z < 4 * seg then (p.slice + 1) * seg + z else (p.slice + 1) * seg + z - 4 * seg
    ensures Ready(c, p, lane, r)
    ensures p.block == 0 && p.slice > 0 ==> r != Place(c, p) - 1
    ensures p.block == 0 && p.slice == 0 ==> r != LaneSize(c) - 1
  {
    hide SegmentSize, LaneSize;
    MulLe(seg, 0, p.slice);
    MulLe(seg, p.slice, 3);
  }

  /** The window of a later pass, beginning with the slice after the current one and going around the lane. */
  lemma Around(seg: nat, slice: nat, z: nat)
    requires 0 < seg && slice < 4 && z < 4 * seg
    ensures var r := (((slice + 1) % 4) * seg + z) % (seg * 4);
            r == if (slice + 1) * seg + z < 4 * seg then (slice + 1) * seg + z else (slice + 1) * seg + z - 4 * seg
  {
    var r := if (slice + 1) * seg + z < 4 * seg then (slice + 1) * seg + z else (slice + 1) * seg + z - 4 * seg;
    assert (slice + 1) * seg >= 0 && (slice + 1) * seg <= 4 * seg by { MulLe(seg, slice + 1, 4); }
    if slice == 3 {
      assert ((slice + 1) % 4) * seg == 0;
      DivModUnique(z, 0, z, seg * 4);
    } else {
      assert (slice + 1) % 4 == slice + 1;
      DivModUnique((slice + 1) * seg + z, if (slice + 1) * seg + z < 4 * seg then 0 else 1, r, seg * 4);
    }
  }
}
