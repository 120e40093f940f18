/** Read requests of any length (kernel/fs/ext2.c, ext2_vfs_read and ext2_vfs_pread).  The rest of a
    request is cut to 32 bits in each turn, so a loop that comes to a rest of a multiple of 2^32 with
    bytes of the file left never moves on.  Whether it comes there depends on where the file's blocks
    lie: a run of whole blocks can step over the place. */
module Ext2Stuck {
  import opened Arithmetic
  import opened Ext2Tree
  import opened Ext2Read
  import opened Ext2Pread

  /** A request: its length, the length in 32 bits, and whether the number of whole blocks left wraps
      where the number of bytes does. */
  datatype Req = Req(len: nat, low: nat, alike: bool)
  {
    /** The bytes that the loop can count with. */
    function Counted(): nat
    {
      if alike then low else len
    }
  }

  predicate ReqOk(r: Req)
  {
    r.low < U32 && (if r.len < U32 then r.low == r.len && r.alike else r.low + U32 <= r.len)
  }

  predicate WrapsAlike(len: nat, size: nat)
    requires size > 0
  {
    (len / U32) % size == 0
  }

  function ReqOf(len: nat, size: nat): (r: Req)
    requires size > 0
    ensures ReqOk(r)
  {
    Req(len, len % U32, WrapsAlike(len, size))
  }

  /** The place where the rest of the request is a multiple of 2^32 lies inside the file, and a turn
      begins in its block: at the start of the read, or behind transfers of whole blocks; or no run
      can step over it, because the number of blocks wraps there too. */
  ghost predicate Sticks(joined: iset<nat>, g: Geo, r: Req)
    requires g.size > 0 && g.cap > 0
  {
    var t := g.start + r.low;
    && r.len >= U32 && t < g.fileSize
    && (r.alike || t < g.first * g.size || Begins(joined, g, t / g.size))
  }

  /** A turn begins at block `i`, behind transfers of whole blocks. */
  ghost predicate Begins(joined: iset<nat>, g: Geo, i: nat)
    requires g.cap > 0
  {
    exists s: nat :: Comes(joined, g, s, i)
  }

  /** At that place. */
  predicate Waits(g: Geo, r: Req, n: nat)
  {
    r.len >= U32 && n == r.low && g.start + n < g.fileSize
  }

  // ---------------------------------------------------------------- one turn

  /** The place lies in the block of this turn. */
  predicate Narrow(g: Geo, p: Spot, r: Req, n: nat)
  {
    !r.alike && g.start + r.low < g.fileSize && n < r.low < n + (g.size - p.off)
  }

  /** What a turn brings. */
  ghost predicate Turned(joined: iset<nat>, g: Geo, p: Spot, r: Req, n: nat, got: nat)
    requires SpotOk(g, p)
  {
    if Narrow(g, p, r, n) then n + got == r.low else TurnOf(joined, g, p, got)
  }

  /** The blocks of a request, cut to 32 bits. */
  lemma AskedBlocks(rest: nat, size: nat)
    requires size == 1024 || size == 2048 || size == 4096
    ensures WrapsAlike(rest, size) ==> (rest / size) % U32 == (rest % U32) / size
    ensures !WrapsAlike(rest, size) ==> (rest / size) % U32 >= U32 / size
  {
    var a, r := rest / U32, rest % U32;
    var q, m := Split(a, size);
    AskedBy(a, r, q, m, size, U32 / size);
  }

  lemma AskedBy(a: nat, r: nat, q: nat, m: nat, size: nat, k: nat)
    requires size > 0 && U32 == k * size && r < U32 && a == q * size + m && m < size
    ensures ((a * U32 + r) / size) % U32 == m * k + r / size && (m > 0 ==> m * k + r / size >= k)
  {
    var b, o := Split(r, size);
    BelowAll(b, o, size, k, r);
    WholeBlocks(a, b, o, size, k);
    DivMod(a * k + b, o, size);
    WholeRounds(a, b, q, m, size, k);
    DivMod(q, m * k + b, U32);
    if m > 0 { Monotone(1, m, k); }
  }

  lemma BelowAll(b: nat, o: nat, size: nat, k: nat, r: nat)
    requires r == b * size + o < k * size
    ensures b < k
  {
    if k <= b { Monotone(k, b, size); }
  }

  lemma WholeRounds(a: nat, b: nat, q: nat, m: nat, size: nat, k: nat)
    requires U32 == k * size && a == q * size + m && m < size && b < k
    ensures a * k + b == q * U32 + (m * k + b) && m * k + b < U32
  {
    assert a * k == q * (size * k) + m * k;
    Monotone(m + 1, size, k);
    assert (m + 1) * k == m * k + k;
  }

  lemma WholeBlocks(a: nat, b: nat, o: nat, size: nat, k: nat)
    requires U32 == k * size
    ensures a * U32 + (b * size + o) == (a * k + b) * size + o
  {
    assert a * U32 == (a * k) * size;
    assert (a * k + b) * size == (a * k) * size + b * size;
  }

  lemma RestIs(len: nat, n: nat)
    requires n <= len && n < U32
    ensures n <= len % U32 ==> (len - n) % U32 == len % U32 - n && (len - n) / U32 == len / U32
    ensures n > len % U32 ==> (len - n) % U32 == U32 + len % U32 - n && (len - n) / U32 == len / U32 - 1
  {
  }

  /** A turn that is bounded by the rest in 32 bits, in a block. */
  lemma NarrowTurn(roots: Roots, disk: Disk, size: nat, fileSize: nat, scratchOk: bool, rest: nat, w: nat, at: nat, got: nat)
    requires size >= 512 && at < fileSize && w == rest % U32 && w < size - at % size && w < fileSize - at
    requires TurnGets(roots, disk, size, fileSize, at, rest, scratchOk, got)
    ensures got == w
  {
  }

  /** A turn that the rest in 32 bits bounds no more than `rest'` does; the blocks of both agree as
      far as the file goes. */
  lemma PlainTurn(roots: Roots, disk: Disk, size: nat, owner: map<nat, Pos>, fileSize: nat, start: nat, scratchOk: bool,
                  rest: nat, rest': nat, w: nat, at: nat, got: nat)
    requires Readable(roots, disk, size, owner) && at < fileSize < U32 && w == rest % U32
    requires Min(Min(w, size - at % size), fileSize - at) == Min(Min(rest', size - at % size), fileSize - at)
    requires at % size == 0 && size <= w && at + size <= fileSize ==>
               var left := Left(GeoOf(size, fileSize, start), at / size); 1 <= Min((rest / size) % U32, left) == Min(rest' / size, left)
    requires TurnGets(roots, disk, size, fileSize, at, rest, scratchOk, got)
    ensures SpotOk(GeoOf(size, fileSize, start), SpotOf(size, at, rest'))
    ensures TurnOf(Joined(roots, disk, size, fileSize, scratchOk), GeoOf(size, fileSize, start), SpotOf(size, at, rest'), got)
  {
    SpotOfIsOk(size, fileSize, start, at, rest');
    if Fast(rest, at, fileSize, size) {
      FastTurn(roots, disk, size, owner, fileSize, start, scratchOk, rest, got, SpotOf(size, at, rest'));
    }
  }

  /** Blocks and bytes wrap alike: the turn is that of a request for the rest in 32 bits. */
  lemma AlikeTurn(roots: Roots, disk: Disk, size: nat, owner: map<nat, Pos>, fileSize: nat, start: nat, scratchOk: bool,
                  rest: nat, w: nat, at: nat, got: nat)
    requires Readable(roots, disk, size, owner) && at < fileSize < U32 && WrapsAlike(rest, size) && w == rest % U32
    requires TurnGets(roots, disk, size, fileSize, at, rest, scratchOk, got)
    ensures SpotOk(GeoOf(size, fileSize, start), SpotOf(size, at, w))
    ensures TurnOf(Joined(roots, disk, size, fileSize, scratchOk), GeoOf(size, fileSize, start), SpotOf(size, at, w), got)
  {
    AskedBlocks(rest, size);
    if at % size == 0 && size <= w && at + size <= fileSize {
      QuotientAtLeast(w, size);
      MaxRunIs(size, fileSize, start, at, rest);
    }
    PlainTurn(roots, disk, size, owner, fileSize, start, scratchOk, rest, w, w, at, got);
  }

  /** They do not, and the rest in 32 bits is no bound. */
  lemma LongTurn(roots: Roots, disk: Disk, size: nat, owner: map<nat, Pos>, fileSize: nat, start: nat, scratchOk: bool,
                 rest: nat, w: nat, at: nat, got: nat)
    requires Readable(roots, disk, size, owner) && at < fileSize < U32 && w == rest % U32
    requires WrapsAlike(rest, size) ==> U32 - at <= w
    requires size - at % size <= w || fileSize - at <= w
    requires TurnGets(roots, disk, size, fileSize, at, rest, scratchOk, got)
    ensures SpotOk(GeoOf(size, fileSize, start), SpotOf(size, at, rest))
    ensures TurnOf(Joined(roots, disk, size, fileSize, scratchOk), GeoOf(size, fileSize, start), SpotOf(size, at, rest), got)
  {
    ModSmaller(rest);
    if at % size == 0 && size <= w && at + size <= fileSize {
      EnoughAsked(size, fileSize, start, rest, w, at);
    }
    PlainTurn(roots, disk, size, owner, fileSize, start, scratchOk, rest, rest, w, at, got);
  }

  /** The blocks asked for reach to the end of the file. */
  lemma EnoughAsked(size: nat, fileSize: nat, start: nat, rest: nat, w: nat, at: nat)
    requires size == 1024 || size == 2048 || size == 4096
    requires at + size <= fileSize < U32 && at % size == 0 && w == rest % U32 && (WrapsAlike(rest, size) ==> U32 - at <= w)
    ensures var left := Left(GeoOf(size, fileSize, start), at / size);
            1 <= left <= rest / size && left <= (rest / size) % U32
  {
    MaxRunIs(size, fileSize, start, at, rest);
    AskedBlocks(rest, size);
    ModSmaller(rest / size);
    LeftFits(size, fileSize, start, at);
    if WrapsAlike(rest, size) { QuotientMono(U32 - at, w, size); }
  }

  lemma QuotientMono(x: nat, y: nat, size: nat)
    requires size > 0 && x <= y
    ensures x / size <= y / size
  {
    var a, r := Split(x, size);
    var b, o := Split(y, size);
    if b < a { Monotone(b + 1, a, size); }
  }

  lemma LeftFits(size: nat, fileSize: nat, start: nat, at: nat)
    requires size == 1024 || size == 2048 || size == 4096
    requires at < fileSize < U32 && at % size == 0
    ensures Left(GeoOf(size, fileSize, start), at / size) <= (U32 - at) / size <= U32 / size
  {
  }

  lemma TurnIs(roots: Roots, disk: Disk, size: nat, owner: map<nat, Pos>, fileSize: nat, start: nat, scratchOk: bool,
               len: nat, n: nat, at: nat, got: nat) returns (p: Spot)
    requires Readable(roots, disk, size, owner) && at == start + n < fileSize < U32 && n < len && n <= ReqOf(len, size).Counted()
    requires !Waits(GeoOf(size, fileSize, start), ReqOf(len, size), n)
    requires TurnGets(roots, disk, size, fileSize, at, len - n, scratchOk, got)
    ensures p.at == at && p.rest == ReqOf(len, size).Counted() - n && SpotOk(GeoOf(size, fileSize, start), p)
    ensures Turned(Joined(roots, disk, size, fileSize, scratchOk), GeoOf(size, fileSize, start), p, ReqOf(len, size), n, got)
  {
    var low, w := len % U32, (len - n) % U32;
    RestIs(len, n);
    if WrapsAlike(len, size) {
      p := SpotOf(size, at, low - n);
      AlikeTurn(roots, disk, size, owner, fileSize, start, scratchOk, len - n, w, at, got);
    } else {
      p := SpotOf(size, at, len - n);
      OpenTurnIs(roots, disk, size, owner, fileSize, start, scratchOk, len, n, at, got, low, w);
    }
  }

  lemma OpenTurnIs(roots: Roots, disk: Disk, size: nat, owner: map<nat, Pos>, fileSize: nat, start: nat, scratchOk: bool,
                   len: nat, n: nat, at: nat, got: nat, low: nat, w: nat)
    requires Readable(roots, disk, size, owner) && at == start + n < fileSize < U32 && n < len && n != low
    requires w == (len - n) % U32 == if n < low then low - n else U32 + low - n
    requires n < low ==> !WrapsAlike(len - n, size)
    requires TurnGets(roots, disk, size, fileSize, at, len - n, scratchOk, got)
    ensures var p := SpotOf(size, at, len - n);
            && SpotOk(GeoOf(size, fileSize, start), p)
            && Turned(Joined(roots, disk, size, fileSize, scratchOk), GeoOf(size, fileSize, start), p, Req(len, low, false), n, got)
  {
    if n < low && start + low < fileSize && low < n + (size - at % size) {
      SpotOfIsOk(size, fileSize, start, at, len - n);
      NarrowTurn(roots, disk, size, fileSize, scratchOk, len - n, w, at, got);
    } else {
      LongTurn(roots, disk, size, owner, fileSize, start, scratchOk, len - n, w, at, got);
    }
  }

  // ---------------------------------------------------------------- where the loop comes to stand

  /** After some turns: at the place, and the condition holds; or where a turn can begin, and behind
      the place only if the condition does not hold. */
  ghost predicate Steady(joined: iset<nat>, g: Geo, r: Req, at: nat, n: nat)
    requires g.size > 0 && g.cap > 0
  {
    && at == g.start + n && n <= r.Counted()
    && if Waits(g, r, n) then Sticks(joined, g, r)
       else (at < g.fileSize ==> Ahead(joined, g, at, r.Counted() - n)) && (r.low < n ==> !Sticks(joined, g, r))
  }

  lemma SteadyStarts(joined: iset<nat>, g: Geo, r: Req)
    requires GeoOk(g)
    ensures Steady(joined, g, r, g.start, 0)
  {
    if Waits(g, r, 0) && g.first * g.size <= g.start {
      BlockIs(g.start + r.low, g.first, g.size);
      assert Comes(joined, g, g.first, g.first);
    }
  }

  lemma BlockIs(x: nat, i: nat, size: nat)
    requires i * size <= x < i * size + size
    ensures x / size == i
  {
    DivMod(i, x - i * size, size);
  }

  lemma TurnFits(joined: iset<nat>, g: Geo, p: Spot, got: nat)
    requires SpotOk(g, p) && TurnOf(joined, g, p, got)
    ensures got <= p.rest
  {
    if Whole(g, p) {
      var run: nat :| got == run * g.size && Stretch(joined, p.i, Min(Min(p.blocks, Left(g, p.i)), g.cap), run);
      Monotone(run, p.blocks, g.size);
    }
  }

  /** The turn ends at the place, which lies in its block. */
  lemma ShortTurnSticks(joined: iset<nat>, g: Geo, p: Spot, r: Req, n: nat)
    requires GeoOk(g) && SpotOk(g, p) && r.len >= U32 && Narrow(g, p, r, n) && p.at == g.start + n
    requires Ahead(joined, g, p.at, p.rest) && g.size <= p.rest
    ensures Sticks(joined, g, r)
  {
    if p.off == 0 {
      BlockIs(g.start + r.low, p.i, g.size);
      var s := ComesHere(joined, g, p);
    } else {
      StartsHere(joined, g, p);
      PartOfBlock(p.i, g.size);
    }
  }

  /** A turn that begins inside a block is the first. */
  lemma StartsHere(joined: iset<nat>, g: Geo, p: Spot)
    requires GeoOk(g) && SpotOk(g, p) && Ahead(joined, g, p.at, p.rest) && g.size <= p.rest && p.off > 0
    ensures p.at == g.start && g.first == p.i + 1
  {
    if p.at != g.start {
      var i: nat, s: nat :| p.at == i * g.size && Comes(joined, g, s, i);
      NotWhole(p.i, p.off, i, g.size);
    }
    NextWhole(p.i, p.off, g.size, g.start, g.first);
  }

  lemma NotWhole(i: nat, off: nat, j: nat, size: nat)
    requires 0 < off < size
    ensures i * size + off != j * size
  {
    DivMod(i, off, size);
    DivMod(j, 0, size);
  }

  lemma PartOfBlock(i: nat, size: nat)
    ensures (i + 1) * size == i * size + size
  {
  }

  /** Whole blocks end at the place. */
  lemma LandingSticks(joined: iset<nat>, g: Geo, r: Req, rest: nat)
    requires GeoOk(g) && r.len >= U32 && 0 < r.low && g.start + r.low < g.fileSize
    requires Ahead(joined, g, g.start + r.low, rest) && g.size <= rest
    ensures Sticks(joined, g, r)
  {
    var t := g.start + r.low;
    var i: nat, s: nat :| t == i * g.size && Comes(joined, g, s, i);
    BlockIs(t, i, g.size);
  }

  /** No transfers come to a block inside a transfer. */
  lemma InsideRun(joined: iset<nat>, g: Geo, s: nat, i: nat, run: nat, b: nat, s': nat)
    requires g.cap > 0 && Comes(joined, g, s, i) && i < b < i + run && run <= g.cap
    requires forall j: nat | i < j < i + run :: j in joined
    ensures !Comes(joined, g, s', b)
  {
    ModTail(i - s, b - i, g.cap);
    if Comes(joined, g, s', b) { OneStretch(joined, g, s, i, s', b); }
  }

  /** A stretch has one beginning. */
  lemma OneStretch(joined: iset<nat>, g: Geo, s: nat, i: nat, s': nat, b: nat)
    requires g.cap > 0 && Comes(joined, g, s, i) && Comes(joined, g, s', b) && i < b && forall j: nat | i < j <= b :: j in joined
    ensures s == s'
  {
    assert s < s' ==> s' in joined;
    assert s' < s ==> s in joined;
  }

  /** A run that steps over the place. */
  lemma StepsOver(joined: iset<nat>, g: Geo, p: Spot, r: Req, n: nat, got: nat)
    requires GeoOk(g) && SpotOk(g, p) && TurnOf(joined, g, p, got) && Ahead(joined, g, p.at, p.rest) && g.size <= p.rest
    requires p.at == g.start + n && !r.alike && !Narrow(g, p, r, n) && n < r.low < n + got
    ensures !Sticks(joined, g, r)
  {
    var t := g.start + r.low;
    if r.len >= U32 && t < g.fileSize {
      var run: nat :| got == run * g.size && Stretch(joined, p.i, Min(Min(p.blocks, Left(g, p.i)), g.cap), run);
      var s := ComesHere(joined, g, p);
      var b, o := Split(t, g.size);
      BlockInRun(p.i, run, b, o, g.size, p.at, t);
      forall s': nat
        ensures !Comes(joined, g, s', b)
      {
        InsideRun(joined, g, s, p.i, run, b, s');
      }
      Monotone(g.first, p.i, g.size);
    }
  }

  lemma BlockInRun(i: nat, run: nat, b: nat, o: nat, size: nat, at: nat, t: nat)
    requires at == i * size && t == b * size + o && o < size && at + size <= t < at + run * size
    ensures i < b < i + run
  {
    assert (i + run) * size == i * size + run * size && (b + 1) * size == b * size + size;
    if b <= i { Monotone(b, i, size); }
    if i + run <= b { Monotone(i + run, b, size); }
  }

  lemma SteadyTurn(joined: iset<nat>, g: Geo, p: Spot, r: Req, n: nat, got: nat)
    requires GeoOk(g) && g.fileSize < U32 && g.size < U32 && ReqOk(r) && SpotOk(g, p) && Steady(joined, g, r, p.at, n) && !Waits(g, r, n)
    requires p.rest == r.Counted() - n && Turned(joined, g, p, r, n, got)
    ensures var m := Min(got, g.fileSize - p.at); Steady(joined, g, r, p.at + m, n + m)
    ensures g.fileSize < p.at + got ==> !Sticks(joined, g, r)
  {
    if Narrow(g, p, r, n) {
      ShortTurnSticks(joined, g, p, r, n);
    } else {
      TurnFits(joined, g, p, got);
      AheadStep(joined, g, p, got);
      if !r.alike { OpenTurn(joined, g, p, r, n, got); }
    }
  }

  lemma OpenTurn(joined: iset<nat>, g: Geo, p: Spot, r: Req, n: nat, got: nat)
    requires GeoOk(g) && g.fileSize < U32 && g.size < U32 && ReqOk(r) && SpotOk(g, p) && Steady(joined, g, r, p.at, n) && !Waits(g, r, n)
    requires !r.alike && p.rest == r.len - n && !Narrow(g, p, r, n) && TurnOf(joined, g, p, got)
    requires got <= p.rest && (g.fileSize <= p.at + got || Ahead(joined, g, p.at + got, p.rest - got))
    ensures Waits(g, r, n + got) ==> Sticks(joined, g, r)
    ensures r.low < n + got && n <= r.low ==> !Sticks(joined, g, r)
  {
    if n < r.low {
      if r.low < n + got {
        StepsOver(joined, g, p, r, n, got);
      } else if Waits(g, r, n + got) {
        LandingSticks(joined, g, r, p.rest - got);
      }
    }
  }

  /** A turn of the plain read, which counts no further than the end of the file. */
  lemma ReadRolls(roots: Roots, disk: Disk, size: nat, owner: map<nat, Pos>, fileSize: nat, start: nat, scratchOk: bool,
                  len: nat, n: nat, at: nat, got: nat)
    requires Readable(roots, disk, size, owner) && at < fileSize < U32 && n < len
    requires Steady(Joined(roots, disk, size, fileSize, scratchOk), GeoOf(size, fileSize, start), ReqOf(len, size), at, n)
    requires TurnGets(roots, disk, size, fileSize, at, len - n, scratchOk, got) && (got == 0 <==> (len - n) % U32 == 0)
    ensures var m := Min(got, fileSize - at);
            Steady(Joined(roots, disk, size, fileSize, scratchOk), GeoOf(size, fileSize, start), ReqOf(len, size), at + m, n + m)
  {
    var g, r := GeoOf(size, fileSize, start), ReqOf(len, size);
    GeoOfIsOk(size, fileSize, start);
    if Waits(g, r, n) {
      RestIs(len, n);
    } else {
      var p := TurnIs(roots, disk, size, owner, fileSize, start, scratchOk, len, n, at, got);
      SteadyTurn(Joined(roots, disk, size, fileSize, scratchOk), g, p, r, n, got);
    }
  }

  /** A place less than a block behind the start is never stepped over. */
  lemma NearStartSticks(joined: iset<nat>, g: Geo, r: Req)
    requires GeoOk(g) && r.len >= U32 && r.low < g.size && g.start + r.low < g.fileSize
    ensures Sticks(joined, g, r)
  {
    var t := g.start + r.low;
    if g.first * g.size <= t {
      BlockIs(t, g.first, g.size);
      assert Comes(joined, g, g.first, t / g.size);
    }
  }

  /** The end of the loop. */
  lemma SteadyEnds(joined: iset<nat>, g: Geo, r: Req, at: nat, n: nat, stuck: bool)
    requires GeoOk(g) && g.fileSize < U32 && ReqOk(r) && Steady(joined, g, r, at, n) && n <= r.len && (n == 0 || at <= g.fileSize)
    requires if stuck then Waits(g, r, n) else n == r.len || g.fileSize <= at
    ensures stuck <==> Sticks(joined, g, r)
  {
  }
}
