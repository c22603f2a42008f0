/** Which block a seed selects, and where the blocks of a pass lie. */
module Argon2Laws {
  import opened Arith
  import opened Limbs
  import opened Argon2

  /** From the second slice on, the high half of the seed selects the lane: the lanes take turns. */
  lemma SelectedLane(c: Config, p: Position, seed: u64)
    requires Valid(c) && (p.pass > 0 || p.slice > 0)
    ensures seed < 0x1_0000_0000 ==> ReferenceLane(c, p, seed) == 0
    ensures seed < 0xffff_ffff_0000_0000 ==>
      ReferenceLane(c, p, seed + 0x1_0000_0000) == (ReferenceLane(c, p, seed) + 1) % c.nbLanes
  {
    var h := seed / 0x1_0000_0000;
    if seed < 0x1_0000_0000 {
      DivModUnique(0, 0, 0, c.nbLanes);
    }
    assert (seed + 0x1_0000_0000) / 0x1_0000_0000 == h + 1;
    NextTurn(h, c.nbLanes);
  }

  lemma NextTurn(h: nat, n: nat)
    requires n > 0
    ensures (h + 1) % n == (h % n + 1) % n
  {
    CongMod(h, n);
    CongRefl(1, n);
    CongAdd(h, h % n, 1, 1, n);
  }

  /** Where the window begins. */
  function Start(c: Config, p: Position): nat
    requires Valid(c)
  {
    if p.pass == 0 then 0 else ((p.slice + 1) % 4) * SegmentSize(c)
  }

  /** x, y and z are what the low half j of a seed gives for a window of w blocks. */
  ghost predicate Selects(j: nat, w: nat, x: nat, y: nat, z: int) {
    && x * 0x1_0000_0000 <= j * j < (x + 1) * 0x1_0000_0000
    && y * 0x1_0000_0000 <= w * x < (y + 1) * 0x1_0000_0000
    && z == w - 1 - y
  }

  /** The low half of the seed selects a block of the window of that lane. */
  lemma Selected(c: Config, p: Position, seed: u64) returns (x: nat, y: nat, z: nat)
    requires Valid(c) && InRange(c, p)
    ensures var w := PlainWindow(c, p, ReferenceLane(c, p, seed));
      && z < w < LaneSize(c) && Selects(seed % 0x1_0000_0000, w, x, y, z)
      && ReferencePlace(c, p, seed) == (Start(c, p) + z) % LaneSize(c)
  {
    hide *;
    var lane, j := ReferenceLane(c, p, seed), seed % 0x1_0000_0000;
    Sizes(c);
    LaneInRange(c, p, seed);
    WindowIsPlain(c, p, lane);
    StartIsPlain(c, p);
    StartIs(c, p);
    var w := PlainWindow(c, p, lane);
    x, y, z := Quotients(j, w);
    PlaceIs(c, p, seed, w, x, y);
    Unwrapped(w);
  }

  lemma StartIs(c: Config, p: Position)
    requires Valid(c)
    ensures Start(c, p) == if p.pass == 0 then 0 else ((p.slice + 1) % 4) * SegmentSize(c)
  {
    hide SegmentSize;
  }

  lemma Quotients(j: nat, w: nat) returns (x: nat, y: nat, z: nat)
    requires j < 0x1_0000_0000 && 0 < w
    ensures x == j * j / 0x1_0000_0000 && y == w * x / 0x1_0000_0000 && z < w && Selects(j, w, x, y, z)
  {
    var m := 0x1_0000_0000;
    MulBound(j, j, m - 1, m - 1);
    x := j * j / m;
    assert x * m <= j * j < (x + 1) * m && x < m;
    MulBound(w, x, w, m - 1);
    y := w * x / m;
    assert y * m <= w * x < (y + 1) * m;
    MulLt(w, x, m);
    if y >= w {
      MulLe(m, w, y);
    }
    z := w - 1 - y;
  }

  lemma PlaceIs(c: Config, p: Position, seed: u64, w: nat, x: nat, y: nat)
    requires Valid(c) && LaneSize(c) > 0 && w == WindowSize(c, p, ReferenceLane(c, p, seed))
    requires x == (seed % 0x1_0000_0000) * (seed % 0x1_0000_0000) / 0x1_0000_0000 && y == w * x / 0x1_0000_0000
    ensures ReferencePlace(c, p, seed) == (WindowStart(c, p) + (Wrap32(w - 1) - y)) % LaneSize(c)
  {
    hide WindowSize, WindowStart, ReferenceLane, LaneSize, Wrap32;
  }

  /** The larger the low half, the older the block. */
  lemma Farther(c: Config, p: Position, seed: u64, seed': u64) returns (z: nat, z': nat)
    requires Valid(c) && InRange(c, p) && ReferenceLane(c, p, seed) == ReferenceLane(c, p, seed')
    requires seed % 0x1_0000_0000 <= seed' % 0x1_0000_0000
    ensures z' <= z < PlainWindow(c, p, ReferenceLane(c, p, seed)) < LaneSize(c)
    ensures ReferencePlace(c, p, seed) == (Start(c, p) + z) % LaneSize(c)
    ensures ReferencePlace(c, p, seed') == (Start(c, p) + z') % LaneSize(c)
  {
    hide *;
    var x, y, x', y';
    x, y, z := Selected(c, p, seed);
    x', y', z' := Selected(c, p, seed');
    Monotone(seed % 0x1_0000_0000, seed' % 0x1_0000_0000, PlainWindow(c, p, ReferenceLane(c, p, seed)), x, y, z, x', y', z');
  }

  lemma Monotone(j: nat, j': nat, w: nat, x: nat, y: nat, z: int, x': nat, y': nat, z': int)
    requires j <= j' && Selects(j, w, x, y, z) && Selects(j', w, x', y', z')
    ensures x <= x' && z' <= z
  {
    var m := 0x1_0000_0000;
    MulLe(j, j, j');
    MulLe(j', j, j');
    assert x * m < (x' + 1) * m;
    MulLe(w, x, x');
    assert y * m < (y' + 1) * m;
  }

  /** Given the lane, nothing else of the seed matters. */
  lemma LowHalfDecides(c: Config, p: Position, seed: u64, seed': u64)
    requires Valid(c) && InRange(c, p) && ReferenceLane(c, p, seed) == ReferenceLane(c, p, seed')
    requires seed % 0x1_0000_0000 == seed' % 0x1_0000_0000
    ensures ReferencePlace(c, p, seed) == ReferencePlace(c, p, seed')
  {
    hide *;
    var x, y, z := Selected(c, p, seed);
    var x', y', z' := Selected(c, p, seed');
    var w := PlainWindow(c, p, ReferenceLane(c, p, seed));
    Monotone(seed % 0x1_0000_0000, seed' % 0x1_0000_0000, w, x, y, z, x', y', z');
    Monotone(seed % 0x1_0000_0000, seed' % 0x1_0000_0000, w, x', y', z', x, y, z);
  }

  /** A low half of zero selects the newest block: in the own lane the one before the previous block, in another lane the last
      one of the slices before, or the one before it at the start of a segment. */
  lemma Newest(c: Config, p: Position, seed: u64)
    requires Valid(c) && InRange(c, p) && seed % 0x1_0000_0000 == 0
    ensures LaneSize(c) > 0
    ensures ReferencePlace(c, p, seed) == (if ReferenceLane(c, p, seed) == p.lane then Place(c, p) - 2
                                           else p.slice * SegmentSize(c) - if p.block == 0 then 2 else 1) % LaneSize(c)
  {
    hide *;
    var x, y, z := Selected(c, p, seed);
    NoneBack(PlainWindow(c, p, ReferenceLane(c, p, seed)), x, y, z);
    WindowEnd(c, p, ReferenceLane(c, p, seed));
  }

  lemma NoneBack(w: nat, x: nat, y: nat, z: int)
    requires Selects(0, w, x, y, z)
    ensures z == w - 1
  {
    assert x == 0;
    assert w * x == 0;
  }

  lemma WindowEnd(c: Config, p: Position, lane: nat)
    requires Valid(c) && InRange(c, p) && LaneSize(c) > 0
    ensures (Start(c, p) + (PlainWindow(c, p, lane) - 1)) % LaneSize(c)
         == (if lane == p.lane then Place(c, p) - 2 else p.slice * SegmentSize(c) - if p.block == 0 then 2 else 1) % LaneSize(c)
  {
    var seg := SegmentSize(c);
    assert LaneSize(c) == 4 * seg;
    hide SegmentSize, LaneSize;
    var r := if lane == p.lane then Place(c, p) - 2 else p.slice * seg - if p.block == 0 then 2 else 1;
    if p.pass > 0 {
      if p.slice == 3 {
        CongIntro(Start(c, p) + (PlainWindow(c, p, lane) - 1), r, 0, 4 * seg);
      } else {
        assert (p.slice + 1) * seg == p.slice * seg + seg;
        CongIntro(Start(c, p) + (PlainWindow(c, p, lane) - 1), r, 1, 4 * seg);
      }
    }
  }

  // Where the blocks are

  /** The memory used is the largest multiple of four segments for every lane. */
  lemma Rounding(c: Config)
    requires Valid(c)
    ensures 4 * c.nbLanes > 0 && Total(c) % (4 * c.nbLanes) == 0 && Total(c) <= c.nbBlocks < Total(c) + 4 * c.nbLanes
    ensures Total(c) == 4 * c.nbLanes * SegmentSize(c)
  {
    var n, q := c.nbLanes, c.nbBlocks / c.nbLanes;
    DivNat(c.nbBlocks, n);
    Quarters(c, n, q);
    hide *;
    Fourfold(n, q, q / 4, q % 4, c.nbBlocks % n);
    DivModUnique(4 * n * (q / 4), q / 4, 0, 4 * n);
  }

  lemma Quarters(c: Config, n: nat, q: nat)
    requires Valid(c) && n == c.nbLanes && q == c.nbBlocks / n
    ensures n > 0 && c.nbBlocks == n * q + c.nbBlocks % n && q == 4 * (q / 4) + q % 4
    ensures SegmentSize(c) == q / 4 && Total(c) == q / 4 * 4 * n
  {
  }

  lemma Fourfold(n: nat, q: nat, s: nat, r: nat, e: nat)
    requires q == 4 * s + r && r < 4 && e < n
    ensures s * 4 * n == 4 * n * s && 4 * n * s <= n * q + e < 4 * n * s + 4 * n
  {
    MulDistr(n, 4 * s, r);
    MulBound(n, r, n, 3);
  }

  /** Every block of the memory is filled once in a pass. */
  lemma FilledOnce(c: Config, pass: nat, i: nat) returns (p: Position)
    requires Valid(c) && i < Total(c)
    ensures p.pass == pass && p.slice < 4 && p.lane < c.nbLanes && p.block < SegmentSize(c) && Current(c, p) == i
  {
    Sizes(c);
    var seg := SegmentSize(c);
    assert LaneSize(c) == 4 * seg && Total(c) == LaneSize(c) * c.nbLanes;
    hide SegmentSize, LaneSize, Total;
    var lane, r := Split(i, 4 * seg, c.nbLanes);
    var slice, block := Split(r, seg, 4);
    p := Position(pass, slice, lane, block);
  }

  lemma Split(i: nat, m: nat, n: nat) returns (q: nat, r: nat)
    requires m > 0 && i < m * n
    ensures i == q * m + r && r < m && q < n
  {
    DivNat(i, m);
    q, r := i / m, i % m;
    if q >= n {
      MulLe(m, n, q);
    }
  }

  lemma OnlyOnce(c: Config, p: Position, q: Position)
    requires Valid(c) && p.pass == q.pass && p.slice < 4 && q.slice < 4 && p.block < SegmentSize(c) && q.block < SegmentSize(c)
    requires Current(c, p) == Current(c, q)
    ensures p == q
  {
    Sizes(c);
    var seg := SegmentSize(c);
    assert LaneSize(c) == 4 * seg;
    hide SegmentSize, LaneSize, Total;
    InLane(seg, p.slice, p.block);
    InLane(seg, q.slice, q.block);
    DivModUnique(Current(c, p), p.lane, Place(c, p), 4 * seg);
    DivModUnique(Current(c, q), q.lane, Place(c, q), 4 * seg);
    DivModUnique(Place(c, p), p.slice, p.block, seg);
    DivModUnique(Place(c, q), q.slice, q.block, seg);
  }

  lemma InLane(seg: nat, slice: nat, block: nat)
    requires slice < 4 && block < seg
    ensures 0 <= slice * seg + block < 4 * seg
  {
    MulLe(seg, slice, 3);
    MulBound(seg, slice, seg, 3);
  }

  /** The previous block is the one before in the same lane, going around. */
  lemma PreviousIs(c: Config, p: Position)
    requires Valid(c) && InRange(c, p)
    ensures LaneSize(c) > 0 && Previous(c, p) == p.lane * LaneSize(c) + (Place(c, p) - 1) % LaneSize(c)
    ensures p.block > 0 ==> Place(c, p) == Place(c, p.(block := p.block - 1)) + 1
    ensures p.block == 0 && p.slice > 0 ==> Place(c, p) == Place(c, p.(slice := p.slice - 1, block := SegmentSize(c) - 1)) + 1
  {
    Sizes(c);
    var seg := SegmentSize(c);
    assert LaneSize(c) == 4 * seg;
    hide SegmentSize, LaneSize, Total;
    InLane(seg, p.slice, p.block);
    if p.slice > 0 {
      MulLe(seg, 1, p.slice);
      assert p.slice * seg == (p.slice - 1) * seg + seg;
      DivModUnique(Place(c, p) - 1, 0, Place(c, p) - 1, 4 * seg);
    } else if p.block > 0 {
      DivModUnique(Place(c, p) - 1, 0, Place(c, p) - 1, 4 * seg);
    } else {
      DivModUnique(-1, -1, 4 * seg - 1, 4 * seg);
    }
  }
}
