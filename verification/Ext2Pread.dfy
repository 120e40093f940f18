/** When the positional read counts bytes past the end of the file (kernel/fs/ext2.c,
    ext2_vfs_pread).  Its loop is that of the plain read without the clamp; whether a run of blocks
    reaches past the end depends only on where the file's blocks lie. */
module Ext2Pread {
  import opened Arithmetic
  import opened Ext2Tree
  import opened Ext2Bytes
  import opened Ext2Read

  /** The indices whose block number follows that of their predecessor, in one pointer array. */
  ghost function JoinedBy(block: nat -> nat, bound: nat -> bool): iset<nat>
  {
    iset j: nat | j > 0 && block(j - 1) != 0 && !bound(j) && block(j) == block(j - 1) + 1
  }

  ghost function BlockOf(roots: Roots, disk: Disk, size: nat): nat -> nat
  {
    (j: nat) => GetBlock(roots, disk, j, size)
  }

  ghost function BoundOf(size: nat): nat -> bool
  {
    (j: nat) => Boundary(j, size / 4)
  }

  /** The logical blocks of a file that follow their predecessor on disk. */
  ghost function Adjacent(roots: Roots, disk: Disk, size: nat): iset<nat>
  {
    JoinedBy(BlockOf(roots, disk, size), BoundOf(size))
  }

  /** Those that are read together with their predecessor.  Block 0 is read alone when the file ends
      less than a block below 2^32, where the rounding of what is left wraps; and so is every block
      behind the direct ones when there is no scratch memory. */
  ghost function Joined(roots: Roots, disk: Disk, size: nat, fileSize: nat, scratchOk: bool): iset<nat>
  {
    iset j: nat | j in Adjacent(roots, disk, size) && (j == 1 ==> fileSize + size <= U32) && (j >= 12 ==> scratchOk)
  }

  /** `run` joined blocks from `idx`, as many as there are up to `max`. */
  ghost predicate Stretch(joined: iset<nat>, idx: nat, max: nat, run: nat)
  {
    1 <= run <= max && (forall j: nat | idx < j < idx + run :: j in joined) && (run == max || idx + run !in joined)
  }

  lemma StretchBy(block: nat -> nat, bound: nat -> bool, idx: nat, max: nat, run: nat)
    requires 1 <= run <= max && (block(idx) == 0 ==> run == 1)
    requires block(idx) != 0 ==> forall j: nat | idx <= j < idx + run :: block(j) == block(idx) + (j - idx)
    requires forall j: nat | idx < j < idx + run :: !bound(j)
    requires block(idx) != 0 ==> run == max || bound(idx + run) || block(idx + run) != block(idx) + run
    ensures Stretch(JoinedBy(block, bound), idx, max, run)
  {
    forall j: nat | idx < j < idx + run
      ensures j in JoinedBy(block, bound)
    {
      assert block(j - 1) == block(idx) + (j - 1 - idx);
    }
    if block(idx) != 0 { assert block(idx + run - 1) == block(idx) + (run - 1); }
  }

  lemma RunIsStretch(roots: Roots, disk: Disk, size: nat, owner: map<nat, Pos>, idx: nat, max: nat, scratchOk: bool, run: nat)
    requires Readable(roots, disk, size, owner) && TakesRun(roots, disk, size, idx, max, scratchOk, run) && (scratchOk || idx < 12)
    ensures Stretch(Adjacent(roots, disk, size), idx, max, run)
  {
    var block, bound := BlockOf(roots, disk, size), BoundOf(size);
    var phys := GetBlock(roots, disk, idx, size);
    assert block(idx) == phys;
    if phys != 0 {
      RunOnDisk(roots, disk, size, owner, idx, max, phys, run);
      forall j: nat | idx <= j < idx + run
        ensures block(j) == phys + (j - idx) && (idx < j ==> !bound(j))
      {
      }
      assert (phys + run) % U32 == phys + run;
      assert block(idx + run) == GetBlock(roots, disk, idx + run, size);
    }
    StretchBy(block, bound, idx, max, run);
  }

  /** The blocks of one turn are a stretch; where the turn is held to one block, of any bound. */
  lemma TakenIsStretch(roots: Roots, disk: Disk, size: nat, owner: map<nat, Pos>, fileSize: nat, scratchOk: bool,
                       idx: nat, max: nat, bound: nat, run: nat)
    requires Readable(roots, disk, size, owner) && TakesRun(roots, disk, size, idx, max, scratchOk, run)
    requires if idx == 0 && fileSize + size > U32 then max == 1 <= bound else max == bound
    ensures Stretch(Joined(roots, disk, size, fileSize, scratchOk), idx, bound, run)
  {
    if scratchOk || idx < 12 {
      RunIsStretch(roots, disk, size, owner, idx, max, scratchOk, run);
      if idx < 12 { RunStaysDirect(roots, disk, size, idx, max, run); }
    }
  }

  /** A run of direct blocks ends with them. */
  lemma RunStaysDirect(roots: Roots, disk: Disk, size: nat, idx: nat, max: nat, run: nat)
    requires Stretch(Adjacent(roots, disk, size), idx, max, run) && idx < 12
    ensures idx + run <= 12
  {
    assert BoundOf(size)(12);
    assert 12 !in Adjacent(roots, disk, size);
  }

  // ---------------------------------------------------------------- sizes in blocks

  /** A read: the block size, the longest transfer in blocks, the file (`last` whole blocks and a
      tail), where the read starts, and the first whole block at or behind that. */
  datatype Geo = Geo(size: nat, cap: nat, fileSize: nat, last: nat, tail: nat, start: nat, first: nat)

  predicate GeoOk(g: Geo)
  {
    && g.size >= 512 && g.cap > 0 && g.fileSize == g.last * g.size + g.tail && g.tail < g.size
    && g.start <= g.first * g.size < g.start + g.size
  }

  function GeoOf(size: nat, fileSize: nat, start: nat): Geo
    requires size >= 512
  {
    Geo(size, DmaCap(size), fileSize, fileSize / size, fileSize % size, start, (start + size - 1) / size)
  }

  lemma GeoOfIsOk(size: nat, fileSize: nat, start: nat)
    requires size == 1024 || size == 2048 || size == 4096
    ensures GeoOk(GeoOf(size, fileSize, start))
  {
    var f := (start + size - 1) / size;
    assert start + size - 1 == f * size + (start + size - 1) % size;
  }

  /** A place of the loop: block and offset, and the rest of the request in whole blocks. */
  datatype Spot = Spot(at: nat, i: nat, off: nat, rest: nat, blocks: nat)

  predicate SpotOk(g: Geo, p: Spot)
  {
    && p.at == p.i * g.size + p.off && p.off < g.size && p.at < g.fileSize
    && p.blocks * g.size <= p.rest < p.blocks * g.size + g.size
  }

  function SpotOf(size: nat, at: nat, rest: nat): Spot
    requires size > 0
  {
    Spot(at, at / size, at % size, rest, rest / size)
  }

  /** Blocks of the file from block `i` on, the last one counted in full. */
  function Left(g: Geo, i: nat): nat
  {
    if i > g.last then 0 else g.last - i + if g.tail > 0 then 1 else 0
  }

  /** A whole block is left of the file and of the request. */
  predicate Whole(g: Geo, p: Spot)
  {
    p.off == 0 && g.size <= p.rest && p.at + g.size <= g.fileSize
  }

  /** What a turn of the loop brings, where the cut to 32 bits bounds nothing. */
  ghost predicate TurnOf(joined: iset<nat>, g: Geo, p: Spot, got: nat)
    requires SpotOk(g, p)
  {
    if Whole(g, p) then
      exists run: nat :: got == run * g.size && Stretch(joined, p.i, Min(Min(p.blocks, Left(g, p.i)), g.cap), run)
    else
      got == Min(Min(p.rest, g.size - p.off), g.fileSize - p.at)
  }

  /** Rounding up the blocks that are left of the file. */
  lemma BlocksLeft(i: nat, last: nat, tail: nat, size: nat, remain: nat)
    requires tail < size <= remain && i * size + remain == last * size + tail
    ensures i <= last && (remain + size - 1) / size == last - i + (if tail == 0 then 0 else 1)
  {
    if last < i { Monotone(last + 1, i, size); }
    var d := last - i;
    assert d * size == last * size - i * size;
    if tail == 0 {
      DivMod(d, size - 1, size);
    } else {
      assert remain + size - 1 == (d + 1) * size + (tail - 1);
      DivMod(d + 1, tail - 1, size);
    }
  }

  lemma Split(x: nat, size: nat) returns (q: nat, r: nat)
    requires size > 0
    ensures x == q * size + r && r < size && q == x / size && r == x % size
  {
    q, r := x / size, x % size;
  }

  lemma BlocksLeft32Is(i: nat, last: nat, tail: nat, size: nat, remain: nat)
    requires size >= 512 && tail < size <= remain && i * size + remain == last * size + tail < U32
    ensures i == 0 && remain + size > U32 ==> BlocksLeft32(remain, size) == 0
    ensures i > 0 || remain + size <= U32 ==> BlocksLeft32(remain, size) == last - i + (if tail == 0 then 0 else 1)
  {
    BlocksLeft(i, last, tail, size, remain);
    if remain + size > U32 {
      if i > 0 { Monotone(1, i, size); }
      var up := remain + size - 1 - U32;
      assert (remain + size - 1) % U32 == up;
      DivMod(0, up, size);
    }
  }

  /** The longest run of a turn at a whole block `i`. */
  lemma MaxRunIs(size: nat, fileSize: nat, start: nat, at: nat, rest: nat)
    requires size == 1024 || size == 2048 || size == 4096
    requires at + size <= fileSize < U32 && at % size == 0
    ensures var g, i, asked := GeoOf(size, fileSize, start), at / size, (rest / size) % U32;
            && Left(g, i) >= 1
            && MaxRun(rest, at, fileSize, size) == if i == 0 && fileSize + size > U32 then 1
                                                   else Min(if asked == 0 then 1 else Min(asked, Left(g, i)), g.cap)
  {
    var i, _ := Split(at, size);
    var last, tail := Split(fileSize, size);
    BlocksLeft(i, last, tail, size, fileSize - at);
    BlocksLeft32Is(i, last, tail, size, fileSize - at);
  }

  lemma SpotOfIsOk(size: nat, fileSize: nat, start: nat, at: nat, rest: nat)
    requires size >= 512 && at < fileSize
    ensures SpotOk(GeoOf(size, fileSize, start), SpotOf(size, at, rest))
  {
    var i, off := Split(at, size);
    var blocks, r := Split(rest, size);
  }

  /** A fast turn takes a stretch, if the blocks asked for are those of the spot as far as the file
      goes. */
  lemma FastTurn(roots: Roots, disk: Disk, size: nat, owner: map<nat, Pos>, fileSize: nat, start: nat, scratchOk: bool,
                 rest: nat, got: nat, p: Spot)
    requires Readable(roots, disk, size, owner) && p.at < fileSize < U32 && Fast(rest, p.at, fileSize, size)
    requires TurnGets(roots, disk, size, fileSize, p.at, rest, scratchOk, got)
    requires p.i == p.at / size && SpotOk(GeoOf(size, fileSize, start), p) && Whole(GeoOf(size, fileSize, start), p)
    requires var left := Left(GeoOf(size, fileSize, start), p.i); 1 <= Min((rest / size) % U32, left) == Min(p.blocks, left)
    ensures TurnOf(Joined(roots, disk, size, fileSize, scratchOk), GeoOf(size, fileSize, start), p, got)
  {
    var g := GeoOf(size, fileSize, start);
    var max := MaxRun(rest, p.at, fileSize, size);
    var run := TurnRun(roots, disk, size, fileSize, p.at, rest, scratchOk, got);
    MaxRunIs(size, fileSize, start, p.at, rest);
    TakenIsStretch(roots, disk, size, owner, fileSize, scratchOk, p.i, max, Min(Min(p.blocks, Left(g, p.i)), g.cap), run);
  }

  lemma TurnRun(roots: Roots, disk: Disk, size: nat, fileSize: nat, at: nat, rest: nat, scratchOk: bool, got: nat) returns (run: nat)
    requires size >= 512 && at < fileSize && TurnGets(roots, disk, size, fileSize, at, rest, scratchOk, got) && Fast(rest, at, fileSize, size)
    ensures got == run * size && run <= MaxRun(rest, at, fileSize, size)
    ensures TakesRun(roots, disk, size, at / size, MaxRun(rest, at, fileSize, size), scratchOk, run)
  {
    run :| got == run * size && TakesRun(roots, disk, size, at / size, MaxRun(rest, at, fileSize, size), scratchOk, run);
  }

  lemma SmallMod(x: nat)
    requires x < U32
    ensures x % U32 == x
  {
  }

  // ---------------------------------------------------------------- the condition

  /** Transfers that begin at block `s`, each as long as can be, come to block `i`. */
  ghost predicate Comes(joined: iset<nat>, g: Geo, s: nat, i: nat)
    requires g.cap > 0
  {
    g.first <= s <= i && (s == g.first || s !in joined) && (forall j: nat | s < j <= i :: j in joined) && (i - s) % g.cap == 0
  }

  /** The last, partial block is joined to a stretch that begins at `s`, and no transfer of that
      stretch ends right before it. */
  ghost predicate Reaches(joined: iset<nat>, g: Geo, s: nat)
    requires g.cap > 0
  {
    && g.first <= s < g.last && (s == g.first || s !in joined) && (forall j: nat | s < j <= g.last :: j in joined)
    && (g.last - s) % g.cap != 0
  }

  /** The condition: the file ends inside a block, the request covers that whole block, and the
      block is read together with the one before it. */
  ghost predicate CountsSlack(joined: iset<nat>, g: Geo, len: nat)
    requires g.cap > 0
  {
    g.tail > 0 && (g.last + 1) * g.size <= g.start + len && exists s: nat :: Reaches(joined, g, s)
  }

  // ---------------------------------------------------------------- no slack without it

  /** Where a turn can begin: at the start, or at a whole block that transfers come to; or less
      than a block is left of the request. */
  ghost predicate Ahead(joined: iset<nat>, g: Geo, at: nat, rest: nat)
    requires g.cap > 0
  {
    rest < g.size || at == g.start || exists i: nat, s: nat :: at == i * g.size && Comes(joined, g, s, i)
  }

  lemma SameBlock(i: nat, j: nat, size: nat)
    requires size > 0 && i * size == j * size
    ensures i == j
  {
    if i < j { Monotone(i + 1, j, size); }
    if j < i { Monotone(j + 1, i, size); }
    assert (i + 1) * size == i * size + size && (j + 1) * size == j * size + size;
  }

  /** A block that is less than a block away from another is that block. */
  lemma NearBlock(i: nat, j: nat, size: nat)
    requires i * size <= j * size < i * size + size
    ensures i == j
  {
    assert (i + 1) * size == i * size + size;
    assert (j + 1) * size == j * size + size;
    if j < i { Monotone(j + 1, i, size); }
    if i < j { Monotone(i + 1, j, size); }
  }

  lemma ComesHere(joined: iset<nat>, g: Geo, p: Spot) returns (s: nat)
    requires GeoOk(g) && SpotOk(g, p) && Ahead(joined, g, p.at, p.rest) && p.off == 0 && g.size <= p.rest
    ensures Comes(joined, g, s, p.i)
  {
    if p.at == g.start {
      s := g.first;
      NearBlock(p.i, g.first, g.size);
    } else {
      var i: nat;
      i, s :| p.at == i * g.size && Comes(joined, g, s, i);
      SameBlock(i, p.i, g.size);
    }
  }

  /** One more full transfer. */
  lemma ComesOn(joined: iset<nat>, g: Geo, s: nat, i: nat)
    requires g.cap > 0 && Comes(joined, g, s, i) && forall j: nat | i < j <= i + g.cap :: j in joined
    ensures Comes(joined, g, s, i + g.cap)
  {
    ModShift(i - s, 1, g.cap);
  }

  /** Behind a run the file or the request is used up, or transfers come to the next block. */
  lemma BehindRun(joined: iset<nat>, g: Geo, p: Spot, s: nat, run: nat) returns (t: nat)
    requires g.cap > 0 && SpotOk(g, p) && Comes(joined, g, s, p.i)
    requires Stretch(joined, p.i, Min(Min(p.blocks, Left(g, p.i)), g.cap), run)
    ensures run == Left(g, p.i) || run == p.blocks || Comes(joined, g, t, p.i + run)
  {
    t := s;
    if p.i + run !in joined {
      t := p.i + run;
    } else if run == g.cap {
      ComesOn(joined, g, s, p.i);
    }
  }

  lemma FastAhead(joined: iset<nat>, g: Geo, p: Spot, run: nat)
    requires GeoOk(g) && SpotOk(g, p) && Whole(g, p) && Ahead(joined, g, p.at, p.rest)
    requires Stretch(joined, p.i, Min(Min(p.blocks, Left(g, p.i)), g.cap), run) && run * g.size <= p.rest
    ensures p.at + run * g.size >= g.fileSize || Ahead(joined, g, p.at + run * g.size, p.rest - run * g.size)
  {
    var s := ComesHere(joined, g, p);
    var t := BehindRun(joined, g, p, s, run);
    if run == Left(g, p.i) {
      RunToEnd(g, p, run);
    } else if run != p.blocks {
      BlockAhead(joined, g, p.i, run, t, p.rest - run * g.size);
    }
  }

  lemma BlockAhead(joined: iset<nat>, g: Geo, i: nat, run: nat, t: nat, rest: nat)
    requires g.cap > 0 && Comes(joined, g, t, i + run)
    ensures Ahead(joined, g, i * g.size + run * g.size, rest)
  {
    assert (i + run) * g.size == i * g.size + run * g.size;
  }

  lemma RunToEnd(g: Geo, p: Spot, run: nat)
    requires GeoOk(g) && SpotOk(g, p) && p.off == 0 && run == Left(g, p.i) > 0
    ensures p.at + run * g.size >= g.fileSize
  {
    assert (p.i + run) * g.size == p.i * g.size + run * g.size;
    assert p.i + run == g.last + if g.tail > 0 then 1 else 0;
    assert (g.last + 1) * g.size == g.last * g.size + g.size;
  }

  lemma SlowAhead(joined: iset<nat>, g: Geo, p: Spot)
    requires GeoOk(g) && SpotOk(g, p) && !Whole(g, p) && Ahead(joined, g, p.at, p.rest)
    ensures var got := Min(Min(p.rest, g.size - p.off), g.fileSize - p.at);
            p.at + got >= g.fileSize || Ahead(joined, g, p.at + got, p.rest - got)
  {
    var got := Min(Min(p.rest, g.size - p.off), g.fileSize - p.at);
    if g.size <= p.rest && p.off > 0 && got == g.size - p.off {
      if p.at != g.start {
        var i: nat, s: nat :| p.at == i * g.size && Comes(joined, g, s, i);
        NearBlock(p.i, i, g.size);
      }
      assert (p.i + 1) * g.size == p.at + got;
      NextWhole(p.i, p.off, g.size, g.start, g.first);
      assert Comes(joined, g, g.first, g.first);
    }
  }

  lemma NextWhole(i: nat, off: nat, size: nat, start: nat, first: nat)
    requires start == i * size + off && 0 < off < size && start <= first * size < start + size
    ensures first == i + 1
  {
    assert (i + 1) * size == i * size + size;
    if first <= i { Monotone(first, i, size); }
    assert (i + 2) * size == i * size + 2 * size;
    if first > i + 1 { Monotone(i + 2, first, size); }
  }

  lemma AheadStep(joined: iset<nat>, g: Geo, p: Spot, got: nat)
    requires GeoOk(g) && SpotOk(g, p) && TurnOf(joined, g, p, got) && Ahead(joined, g, p.at, p.rest) && got <= p.rest
    ensures p.at + got >= g.fileSize || Ahead(joined, g, p.at + got, p.rest - got)
  {
    if Whole(g, p) {
      var run: nat :| got == run * g.size && Stretch(joined, p.i, Min(Min(p.blocks, Left(g, p.i)), g.cap), run);
      FastAhead(joined, g, p, run);
    } else {
      SlowAhead(joined, g, p);
    }
  }

  lemma RunPastEnd(g: Geo, p: Spot, run: nat)
    requires GeoOk(g) && SpotOk(g, p) && Whole(g, p) && run <= Left(g, p.i) && g.fileSize < p.at + run * g.size
    ensures g.tail > 0 && p.i < g.last && p.i + run == g.last + 1 && (g.last + 1) * g.size == p.at + run * g.size
  {
    assert (p.i + run) * g.size == p.i * g.size + run * g.size;
    assert (g.last + 1) * g.size == g.last * g.size + g.size && (p.i + 1) * g.size == p.i * g.size + g.size;
    if p.i + run <= g.last { Monotone(p.i + run, g.last, g.size); }
    if g.last <= p.i { Monotone(g.last, p.i, g.size); }
  }

  lemma ReachesLast(joined: iset<nat>, g: Geo, s: nat, i: nat, run: nat)
    requires g.cap > 0 && Comes(joined, g, s, i) && i < g.last && i + run == g.last + 1 && run <= g.cap
    requires forall j: nat | i < j < i + run :: j in joined
    ensures Reaches(joined, g, s)
  {
    ModTail(i - s, g.last - i, g.cap);
  }

  lemma ModTail(a: nat, b: nat, cap: nat)
    requires b < cap && a % cap == 0
    ensures (a + b) % cap == b
  {
    var k, _ := Split(a, cap);
    DivMod(k, b, cap);
  }

  /** A turn that passes the end meets the condition. */
  lemma PastEndHasSlack(joined: iset<nat>, g: Geo, p: Spot, len: nat, got: nat)
    requires GeoOk(g) && SpotOk(g, p) && TurnOf(joined, g, p, got) && Ahead(joined, g, p.at, p.rest)
    requires got <= p.rest && p.at + p.rest == g.start + len && g.fileSize < p.at + got
    ensures CountsSlack(joined, g, len)
  {
    if Whole(g, p) {
      var run: nat :| got == run * g.size && Stretch(joined, p.i, Min(Min(p.blocks, Left(g, p.i)), g.cap), run);
      var s := ComesHere(joined, g, p);
      RunPastEnd(g, p, run);
      ReachesLast(joined, g, s, p.i, run);
    }
  }

  // ---------------------------------------------------------------- slack with it

  /** On the way to the stretch that reaches the last block, or inside it between two transfers. */
  ghost predicate Toward(g: Geo, s: nat, at: nat)
    requires g.cap > 0
  {
    at <= s * g.size || exists i: nat :: at == i * g.size && s < i <= g.last && (i - s) % g.cap == 0
  }

  lemma BelowBlock(i: nat, s: nat, size: nat)
    requires i * size < s * size
    ensures i < s
  {
    if s <= i { Monotone(s, i, size); }
  }

  /** No turn steps over the first block of the stretch. */
  lemma StopsAtStretch(joined: iset<nat>, g: Geo, p: Spot, got: nat, s: nat)
    requires GeoOk(g) && SpotOk(g, p) && TurnOf(joined, g, p, got) && g.start <= p.at < s * g.size
    requires s == g.first || s !in joined
    ensures p.at + got <= s * g.size
  {
    BelowBlock(p.i, s, g.size);
    if Whole(g, p) {
      var run: nat :| got == run * g.size && Stretch(joined, p.i, Min(Min(p.blocks, Left(g, p.i)), g.cap), run);
      NotFirst(g, p.i);
      RunStops(p.i, run, s, g.size);
    } else {
      PartStops(p.i, p.off, got, s, g.size);
    }
  }

  lemma RunStops(i: nat, run: nat, s: nat, size: nat)
    requires i + run <= s
    ensures i * size + run * size <= s * size
  {
    Monotone(i + run, s, size);
    assert (i + run) * size == i * size + run * size;
  }

  lemma PartStops(i: nat, off: nat, got: nat, s: nat, size: nat)
    requires i < s && off + got <= size
    ensures i * size + off + got <= s * size
  {
    Monotone(i + 1, s, size);
    assert (i + 1) * size == i * size + size;
  }

  /** A whole block at or behind the start is not before the first one. */
  lemma NotFirst(g: Geo, i: nat)
    requires GeoOk(g) && g.start <= i * g.size
    ensures g.first <= i
  {
    assert (i + 1) * g.size == i * g.size + g.size;
    if i < g.first { Monotone(i + 1, g.first, g.size); }
  }

  /** Inside the stretch every turn is one full transfer, until one passes the end. */
  lemma FullTransfer(joined: iset<nat>, g: Geo, p: Spot, got: nat, s: nat)
    requires GeoOk(g) && SpotOk(g, p) && TurnOf(joined, g, p, got) && g.tail > 0 && p.off == 0
    requires Reaches(joined, g, s) && s <= p.i < g.last && (p.i - s) % g.cap == 0
    requires (g.last + 1) * g.size <= p.at + p.rest && p.at + got <= g.fileSize
    ensures p.at + got == (p.i + g.cap) * g.size && p.i + g.cap <= g.last && (p.i + g.cap - s) % g.cap == 0
  {
    EnoughLeft(g, p);
    var run: nat :| got == run * g.size && Stretch(joined, p.i, Min(Min(p.blocks, Left(g, p.i)), g.cap), run);
    WholeStretch(joined, g, s, p.i, Min(Min(p.blocks, Left(g, p.i)), g.cap), run);
    NotPastEnd(g, p.i, run);
    ModShift(p.i - s, 1, g.cap);
  }

  lemma WholeStretch(joined: iset<nat>, g: Geo, s: nat, i: nat, max: nat, run: nat)
    requires g.cap > 0 && Reaches(joined, g, s) && s <= i < g.last && Stretch(joined, i, max, run) && max <= g.last + 1 - i
    ensures run == max
  {
    assert i + run <= g.last ==> i + run in joined;
  }

  lemma NotPastEnd(g: Geo, i: nat, run: nat)
    requires GeoOk(g) && i * g.size + run * g.size <= g.fileSize
    ensures i * g.size + run * g.size == (i + run) * g.size && i + run <= g.last
  {
    assert (i + run) * g.size == i * g.size + run * g.size;
    assert (g.last + 1) * g.size == g.last * g.size + g.size;
    if g.last < i + run { Monotone(g.last + 1, i + run, g.size); }
  }

  lemma EnoughLeft(g: Geo, p: Spot)
    requires GeoOk(g) && SpotOk(g, p) && g.tail > 0 && p.off == 0 && p.i < g.last && (g.last + 1) * g.size <= p.at + p.rest
    ensures Whole(g, p) && Left(g, p.i) <= p.blocks
  {
    Monotone(p.i + 1, g.last, g.size);
    assert (p.i + 1) * g.size == p.i * g.size + g.size && (g.last + 1) * g.size == g.last * g.size + g.size;
    RoomFor(p.i, g.last, p.blocks, p.rest, g.size);
  }

  lemma RoomFor(i: nat, last: nat, blocks: nat, rest: nat, size: nat)
    requires i < last && (last + 1) * size <= i * size + rest && rest < blocks * size + size
    ensures last + 1 - i <= blocks
  {
    var left := last + 1 - i;
    assert left * size == (last + 1) * size - i * size;
    assert (blocks + 1) * size == blocks * size + size;
    if blocks < left { Monotone(blocks + 1, left, size); }
  }

  lemma TowardStep(joined: iset<nat>, g: Geo, p: Spot, got: nat, s: nat)
    requires GeoOk(g) && SpotOk(g, p) && TurnOf(joined, g, p, got) && g.start <= p.at && g.tail > 0
    requires Reaches(joined, g, s) && (g.last + 1) * g.size <= p.at + p.rest && Toward(g, s, p.at) && p.at + got <= g.fileSize
    ensures Toward(g, s, p.at + got)
  {
    if p.at < s * g.size {
      StopsAtStretch(joined, g, p, got, s);
    } else {
      var i := s;
      if p.at != s * g.size { i :| p.at == i * g.size && s < i <= g.last && (i - s) % g.cap == 0; }
      TransferStep(joined, g, p, got, s, i);
    }
  }

  lemma TransferStep(joined: iset<nat>, g: Geo, p: Spot, got: nat, s: nat, i: nat)
    requires GeoOk(g) && SpotOk(g, p) && TurnOf(joined, g, p, got) && g.tail > 0
    requires Reaches(joined, g, s) && (g.last + 1) * g.size <= p.at + p.rest && p.at + got <= g.fileSize
    requires p.at == i * g.size && s <= i <= g.last && (i - s) % g.cap == 0
    ensures Toward(g, s, p.at + got)
  {
    NearBlock(p.i, i, g.size);
    FullTransfer(joined, g, p, got, s);
  }

  /** On that way the end is not reached. */
  lemma TowardIsInside(g: Geo, s: nat, at: nat)
    requires GeoOk(g) && Toward(g, s, at) && s < g.last && g.tail > 0
    ensures at < g.fileSize
  {
    Monotone(s, g.last, g.size);
    if i: nat :| at == i * g.size && s < i <= g.last { Monotone(i, g.last, g.size); }
  }

  // ---------------------------------------------------------------- the loop

  /** How many bytes a read at `start` should deliver. */
  function Due(start: nat, fileSize: nat, len: nat): nat
  {
    if start >= fileSize then 0 else Min(fileSize - start, len)
  }

  /** The end of the file's last block. */
  function PaddedEnd(g: Geo): nat
  {
    (g.last + 1) * g.size
  }

  /** A turn that passes the end stops at the end of the last block. */
  lemma StopsAtPadding(roots: Roots, disk: Disk, size: nat, fileSize: nat, start: nat, at: nat, rest: nat, scratchOk: bool, got: nat)
    requires size >= 512 && at < fileSize && TurnGets(roots, disk, size, fileSize, at, rest, scratchOk, got) && fileSize < at + got
    ensures fileSize % size != 0 && at + got == PaddedEnd(GeoOf(size, fileSize, start))
  {
    if Fast(rest, at, fileSize, size) {
      var run := TurnRun(roots, disk, size, fileSize, at, rest, scratchOk, got);
      var i, _ := Split(at, size);
      var last, tail := Split(fileSize, size);
      FastPadding(rest, size, fileSize, at, run, i, last, tail);
    }
  }

  lemma FastPadding(rest: nat, size: nat, fileSize: nat, at: nat, run: nat, i: nat, last: nat, tail: nat)
    requires size >= 512 && at < fileSize && Fast(rest, at, fileSize, size) && run <= MaxRun(rest, at, fileSize, size)
    requires at == i * size && fileSize == last * size + tail && tail < size && fileSize < at + run * size
    ensures tail > 0 && at + run * size == (last + 1) * size
  {
    Rounded(fileSize - at, size);
    PaddingRun(i, last, tail, size, run, at, fileSize, MaxRun(rest, at, fileSize, size));
  }

  lemma Rounded(remain: nat, size: nat)
    requires size >= 512
    ensures BlocksLeft32(remain, size) <= (remain + size - 1) / size
  {
    var x := remain + size - 1;
    var q, r := Split(x, size);
    var k, l := Split(x % U32, size);
    if q < k { Monotone(q + 1, k, size); }
  }

  lemma PaddingRun(i: nat, last: nat, tail: nat, size: nat, run: nat, at: nat, fileSize: nat, max: nat)
    requires size > 0 && at == i * size && fileSize == last * size + tail && tail < size && at + size <= fileSize < at + run * size
    requires run <= max && (max <= 1 || max <= (fileSize - at + size - 1) / size)
    ensures tail > 0 && at + run * size == (last + 1) * size
  {
    BlocksLeft(i, last, tail, size, fileSize - at);
    assert (i + run) * size == i * size + run * size;
    assert (last + 1) * size == last * size + size;
    if i + run <= last { Monotone(i + run, last, size); }
  }

  /** On the way to every stretch that reaches the last block. */
  ghost predicate OnTheWay(joined: iset<nat>, g: Geo, at: nat)
    requires g.cap > 0
  {
    forall s: nat | Reaches(joined, g, s) :: Toward(g, s, at)
  }

  /** What the turns so far say about the blocks, while none has passed the end. */
  ghost predicate Underway(joined: iset<nat>, g: Geo, at: nat, len: nat, n: nat)
    requires g.cap > 0
  {
    && n <= len && (at < g.fileSize ==> Ahead(joined, g, at, len - n))
    && (g.tail > 0 && PaddedEnd(g) <= g.start + len ==> OnTheWay(joined, g, at))
  }

  lemma UnderwayStarts(joined: iset<nat>, g: Geo, len: nat)
    requires GeoOk(g)
    ensures Underway(joined, g, g.start, len, 0)
  {
    forall s: nat | g.first <= s
      ensures g.start <= s * g.size
    {
      Monotone(g.first, s, g.size);
    }
  }

  lemma UnderwayTurn(joined: iset<nat>, g: Geo, p: Spot, len: nat, n: nat, got: nat)
    requires GeoOk(g) && SpotOk(g, p) && TurnOf(joined, g, p, got) && Underway(joined, g, p.at, len, n)
    requires p.at == g.start + n && p.rest == len - n && got <= p.rest
    ensures g.fileSize < p.at + got ==> CountsSlack(joined, g, len)
    ensures p.at + got <= g.fileSize ==> Underway(joined, g, p.at + got, len, n + got)
  {
    if g.fileSize < p.at + got {
      PastEndHasSlack(joined, g, p, len, got);
    } else {
      AheadStep(joined, g, p, got);
      forall s: nat | g.tail > 0 && PaddedEnd(g) <= g.start + len && Reaches(joined, g, s)
        ensures Toward(g, s, p.at + got)
      {
        TowardStep(joined, g, p, got, s);
      }
    }
  }

  /** Without a turn past the end there is no stretch that reaches the last block. */
  lemma UnderwayEnds(joined: iset<nat>, g: Geo, at: nat, len: nat, n: nat)
    requires GeoOk(g) && Underway(joined, g, at, len, n) && at == g.start + n && (n == len || g.fileSize <= at)
    ensures !CountsSlack(joined, g, len)
  {
    assert (g.last + 1) * g.size == g.last * g.size + g.size;
    if CountsSlack(joined, g, len) {
      var s: nat :| Reaches(joined, g, s);
      TowardIsInside(g, s, at);
    }
  }
}
