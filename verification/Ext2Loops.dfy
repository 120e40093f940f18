/** The loops of the two ext2 reads (kernel/fs/ext2.c, ext2_vfs_read and ext2_vfs_pread): what they
    have delivered and counted after any number of turns, for requests of any length. */
module Ext2Loops {
  import opened Ext2Tree
  import opened Ext2Bytes
  import opened Ext2Read
  import opened Ext2Pread
  import opened Ext2Stuck

  /** One turn, seen from the buffer. */
  ghost predicate Brings(roots: Roots, disk: Disk, g: Geo, scratchOk: bool, buf: seq<Byte>, buf': seq<Byte>, n: nat, at: nat, got: nat)
  {
    && g.size >= 512 && at < g.fileSize && n < |buf| && n + got <= |buf| == |buf'|
    && TurnGets(roots, disk, g.size, g.fileSize, at, |buf| - n, scratchOk, got)
    && (got == 0 <==> (|buf| - n) % U32 == 0)
    && buf'[..n] == buf[..n] && Delivered(buf'[n..], got, roots, disk, g.size, at)
  }

  // ---------------------------------------------------------------- the plain read

  /** After some turns. */
  ghost predicate ReadOk(roots: Roots, disk: Disk, g: Geo, scratchOk: bool, buf: seq<Byte>, n: nat)
    requires g.size > 0 && g.cap > 0
  {
    && n <= |buf| && (n == 0 || g.start + n <= g.fileSize) && Delivered(buf, n, roots, disk, g.size, g.start)
    && Steady(Joined(roots, disk, g.size, g.fileSize, scratchOk), g, ReqOf(|buf|, g.size), g.start + n, n)
  }

  lemma ReadStarts(roots: Roots, disk: Disk, g: Geo, scratchOk: bool, buf: seq<Byte>)
    requires GeoOk(g)
    ensures ReadOk(roots, disk, g, scratchOk, buf, 0)
  {
    SteadyStarts(Joined(roots, disk, g.size, g.fileSize, scratchOk), g, ReqOf(|buf|, g.size));
  }

  lemma ReadTurn(roots: Roots, disk: Disk, owner: map<nat, Pos>, size: nat, fileSize: nat, start: nat, scratchOk: bool,
                 buf: seq<Byte>, buf': seq<Byte>, n: nat, got: nat, count: nat)
    requires Readable(roots, disk, size, owner) && start + n < fileSize < U32 && count == Min(got, fileSize - (start + n))
    requires GeoOk(GeoOf(size, fileSize, start)) && ReadOk(roots, disk, GeoOf(size, fileSize, start), scratchOk, buf, n)
    requires Brings(roots, disk, GeoOf(size, fileSize, start), scratchOk, buf, buf', n, start + n, got)
    ensures ReadOk(roots, disk, GeoOf(size, fileSize, start), scratchOk, buf', n + count)
    ensures count == 0 <==> (|buf| - n) % U32 == 0
  {
    ReadRolls(roots, disk, size, owner, fileSize, start, scratchOk, |buf|, n, start + n, got);
    ReadKeeps(roots, disk, GeoOf(size, fileSize, start), scratchOk, buf, buf', n, got, count);
  }

  lemma ReadKeeps(roots: Roots, disk: Disk, g: Geo, scratchOk: bool, buf: seq<Byte>, buf': seq<Byte>, n: nat, got: nat, count: nat)
    requires GeoOk(g) && ReadOk(roots, disk, g, scratchOk, buf, n) && Brings(roots, disk, g, scratchOk, buf, buf', n, g.start + n, got)
    requires count == Min(got, g.fileSize - (g.start + n))
    requires Steady(Joined(roots, disk, g.size, g.fileSize, scratchOk), g, ReqOf(|buf|, g.size), g.start + n + count, n + count)
    ensures ReadOk(roots, disk, g, scratchOk, buf', n + count)
    ensures count == 0 <==> (|buf| - n) % U32 == 0
  {
    FewerDelivered(buf'[n..], got, count, roots, disk, g.size, g.start + n);
    MoreDelivered(buf, buf', n, count, roots, disk, g.size, g.start);
  }

  /** The end of the loop. */
  lemma ReadEnds(roots: Roots, disk: Disk, g: Geo, scratchOk: bool, buf: seq<Byte>, n: nat, stuck: bool)
    requires GeoOk(g) && g.fileSize < U32 && ReadOk(roots, disk, g, scratchOk, buf, n)
    requires if stuck then n < |buf| && g.start + n < g.fileSize && (|buf| - n) % U32 == 0 else n == |buf| || g.fileSize <= g.start + n
    ensures buf[..n] == if n == 0 then [] else Content(roots, disk, g.size, g.fileSize)[g.start..g.start + n]
    ensures stuck <==> Sticks(Joined(roots, disk, g.size, g.fileSize, scratchOk), g, ReqOf(|buf|, g.size))
    ensures stuck ==> n == |buf| % U32 && |buf| >= U32
    ensures |buf| % U32 < g.size ==> (stuck <==> |buf| >= U32 && g.start + |buf| % U32 < g.fileSize)
  {
    var joined, r := Joined(roots, disk, g.size, g.fileSize, scratchOk), ReqOf(|buf|, g.size);
    SliceIs(buf, n, roots, disk, g.size, g.start, g.fileSize);
    if stuck { WholeWords(|buf|, n); }
    SteadyEnds(joined, g, r, g.start + n, n, stuck);
    if r.low < g.size && r.len >= U32 && g.start + r.low < g.fileSize { NearStartSticks(joined, g, r); }
  }

  /** A multiple of 2^32 that is not 0 is at least 2^32. */
  lemma WholeWords(len: nat, n: nat)
    requires n < len && (len - n) % U32 == 0
    ensures len >= U32 && (n < U32 ==> n == len % U32)
  {
  }

  // ---------------------------------------------------------------- the positional read

  /** What the turns so far say about the blocks, while none has passed the end. */
  ghost predicate Rolling(joined: iset<nat>, g: Geo, r: Req, at: nat, n: nat)
    requires g.size > 0 && g.cap > 0
  {
    Steady(joined, g, r, at, n) && (!Waits(g, r, n) ==> Underway(joined, g, at, r.Counted(), n))
  }

  lemma RollingStarts(joined: iset<nat>, g: Geo, r: Req)
    requires GeoOk(g)
    ensures Rolling(joined, g, r, g.start, 0)
  {
    SteadyStarts(joined, g, r);
    UnderwayStarts(joined, g, r.Counted());
  }

  lemma RollingTurn(joined: iset<nat>, g: Geo, p: Spot, r: Req, n: nat, got: nat)
    requires GeoOk(g) && g.fileSize < U32 && g.size < U32 && ReqOk(r) && SpotOk(g, p) && Rolling(joined, g, r, p.at, n) && !Waits(g, r, n)
    requires p.rest == r.Counted() - n && Turned(joined, g, p, r, n, got)
    ensures g.fileSize < p.at + got ==> CountsSlack(joined, g, r.Counted()) && !Sticks(joined, g, r)
    ensures p.at + got <= g.fileSize ==> Rolling(joined, g, r, p.at + got, n + got)
  {
    SteadyTurn(joined, g, p, r, n, got);
    if !Narrow(g, p, r, n) {
      TurnFits(joined, g, p, got);
      UnderwayTurn(joined, g, p, r.Counted(), n, got);
    }
  }

  /** After some turns; `past` says that one of them passed the end. */
  ghost predicate PreadOk(roots: Roots, disk: Disk, g: Geo, scratchOk: bool, buf: seq<Byte>, n: nat, at: nat, past: bool)
    requires g.size > 0 && g.cap > 0
  {
    && n <= |buf|
    && if past then WentPast(roots, disk, g, scratchOk, buf, n, at)
       else
         && (n == 0 || at <= g.fileSize) && Delivered(buf, n, roots, disk, g.size, g.start)
         && Rolling(Joined(roots, disk, g.size, g.fileSize, scratchOk), g, ReqOf(|buf|, g.size), at, n)
  }

  ghost predicate WentPast(roots: Roots, disk: Disk, g: Geo, scratchOk: bool, buf: seq<Byte>, n: nat, at: nat)
    requires g.size > 0 && g.cap > 0
  {
    var joined, r := Joined(roots, disk, g.size, g.fileSize, scratchOk), ReqOf(|buf|, g.size);
    && g.start < g.fileSize && g.fileSize - g.start < n <= |buf| && Delivered(buf, g.fileSize - g.start, roots, disk, g.size, g.start)
    && g.tail > 0 && (PaddedEnd(g) < U32 ==> at == g.start + n == PaddedEnd(g))
    && CountsSlack(joined, g, r.Counted()) && !Sticks(joined, g, r)
  }

  lemma PreadStarts(roots: Roots, disk: Disk, g: Geo, scratchOk: bool, buf: seq<Byte>)
    requires GeoOk(g)
    ensures PreadOk(roots, disk, g, scratchOk, buf, 0, g.start, false)
  {
    RollingStarts(Joined(roots, disk, g.size, g.fileSize, scratchOk), g, ReqOf(|buf|, g.size));
  }

  lemma PreadTurn(roots: Roots, disk: Disk, owner: map<nat, Pos>, size: nat, fileSize: nat, start: nat, scratchOk: bool,
                  buf: seq<Byte>, buf': seq<Byte>, n: nat, at: nat, past: bool, got: nat)
    requires Readable(roots, disk, size, owner) && fileSize < U32 && GeoOk(GeoOf(size, fileSize, start))
    requires PreadOk(roots, disk, GeoOf(size, fileSize, start), scratchOk, buf, n, at, past)
    requires Brings(roots, disk, GeoOf(size, fileSize, start), scratchOk, buf, buf', n, at, got)
    ensures PreadOk(roots, disk, GeoOf(size, fileSize, start), scratchOk, buf', n + got, (at + got) % U32, past || fileSize < at + got)
  {
    var g := GeoOf(size, fileSize, start);
    if past {
      PreadAgain(roots, disk, g, scratchOk, buf, buf', n, at, got);
    } else {
      PreadOutcome(roots, disk, owner, size, fileSize, start, scratchOk, |buf|, n, at, got);
      PreadMoves(roots, disk, g, scratchOk, buf, buf', n, at, got);
    }
  }

  /** What a turn means for the blocks. */
  ghost predicate MovedOn(joined: iset<nat>, g: Geo, r: Req, n: nat, at: nat, got: nat)
    requires g.size > 0 && g.cap > 0
  {
    if g.fileSize < at + got then at + got == PaddedEnd(g) && g.tail > 0 && CountsSlack(joined, g, r.Counted()) && !Sticks(joined, g, r)
    else Rolling(joined, g, r, at + got, n + got)
  }

  lemma PreadOutcome(roots: Roots, disk: Disk, owner: map<nat, Pos>, size: nat, fileSize: nat, start: nat, scratchOk: bool,
                     len: nat, n: nat, at: nat, got: nat)
    requires Readable(roots, disk, size, owner) && GeoOk(GeoOf(size, fileSize, start)) && at < fileSize < U32 && n < len
    requires Rolling(Joined(roots, disk, size, fileSize, scratchOk), GeoOf(size, fileSize, start), ReqOf(len, size), at, n)
    requires TurnGets(roots, disk, size, fileSize, at, len - n, scratchOk, got) && (got == 0 <==> (len - n) % U32 == 0)
    ensures MovedOn(Joined(roots, disk, size, fileSize, scratchOk), GeoOf(size, fileSize, start), ReqOf(len, size), n, at, got)
  {
    StandsStill(GeoOf(size, fileSize, start), len, size, n);
    PreadRolls(roots, disk, owner, size, fileSize, start, scratchOk, len, n, at, got);
    if fileSize < at + got { StopsAtPadding(roots, disk, size, fileSize, start, at, len - n, scratchOk, got); }
  }

  lemma PreadMoves(roots: Roots, disk: Disk, g: Geo, scratchOk: bool, buf: seq<Byte>, buf': seq<Byte>, n: nat, at: nat, got: nat)
    requires GeoOk(g) && g.fileSize < U32
    requires PreadOk(roots, disk, g, scratchOk, buf, n, at, false) && Brings(roots, disk, g, scratchOk, buf, buf', n, at, got)
    requires MovedOn(Joined(roots, disk, g.size, g.fileSize, scratchOk), g, ReqOf(|buf|, g.size), n, at, got)
    ensures PreadOk(roots, disk, g, scratchOk, buf', n + got, (at + got) % U32, g.fileSize < at + got)
  {
    if g.fileSize < at + got {
      PreadPast(roots, disk, g, scratchOk, buf, buf', n, at, got);
    } else {
      PreadInside(roots, disk, g, scratchOk, buf, buf', n, at, got);
    }
  }

  /** At the place where the rest is a multiple of 2^32. */
  lemma StandsStill(g: Geo, len: nat, size: nat, n: nat)
    requires size > 0 && n <= len
    ensures Waits(g, ReqOf(len, size), n) ==> (len - n) % U32 == 0
  {
    if n == len % U32 { RestIs(len, n); }
  }

  lemma PreadInside(roots: Roots, disk: Disk, g: Geo, scratchOk: bool, buf: seq<Byte>, buf': seq<Byte>, n: nat, at: nat, got: nat)
    requires GeoOk(g) && PreadOk(roots, disk, g, scratchOk, buf, n, at, false) && Brings(roots, disk, g, scratchOk, buf, buf', n, at, got)
    requires at + got <= g.fileSize < U32
    requires Rolling(Joined(roots, disk, g.size, g.fileSize, scratchOk), g, ReqOf(|buf|, g.size), at + got, n + got)
    ensures PreadOk(roots, disk, g, scratchOk, buf', n + got, (at + got) % U32, false)
  {
    SmallMod(at + got);
    MoreDelivered(buf, buf', n, got, roots, disk, g.size, g.start);
  }

  lemma PreadPast(roots: Roots, disk: Disk, g: Geo, scratchOk: bool, buf: seq<Byte>, buf': seq<Byte>, n: nat, at: nat, got: nat)
    requires GeoOk(g) && PreadOk(roots, disk, g, scratchOk, buf, n, at, false) && Brings(roots, disk, g, scratchOk, buf, buf', n, at, got)
    requires g.fileSize < at + got == PaddedEnd(g) && g.tail > 0
    requires var joined, r := Joined(roots, disk, g.size, g.fileSize, scratchOk), ReqOf(|buf|, g.size);
             CountsSlack(joined, g, r.Counted()) && !Sticks(joined, g, r)
    ensures PreadOk(roots, disk, g, scratchOk, buf', n + got, (at + got) % U32, true)
  {
    MoreDelivered(buf, buf', n, got, roots, disk, g.size, g.start);
    FewerDelivered(buf', n + got, g.fileSize - g.start, roots, disk, g.size, g.start);
    if at + got < U32 { SmallMod(at + got); }
  }

  /** The turn on blocks. */
  lemma PreadRolls(roots: Roots, disk: Disk, owner: map<nat, Pos>, size: nat, fileSize: nat, start: nat, scratchOk: bool,
                   len: nat, n: nat, at: nat, got: nat)
    requires Readable(roots, disk, size, owner) && GeoOk(GeoOf(size, fileSize, start)) && at < fileSize < U32 && n < len
    requires Rolling(Joined(roots, disk, size, fileSize, scratchOk), GeoOf(size, fileSize, start), ReqOf(len, size), at, n)
    requires TurnGets(roots, disk, size, fileSize, at, len - n, scratchOk, got)
    requires Waits(GeoOf(size, fileSize, start), ReqOf(len, size), n) ==> got == 0
    ensures var joined, g, r := Joined(roots, disk, size, fileSize, scratchOk), GeoOf(size, fileSize, start), ReqOf(len, size);
            && (fileSize < at + got ==> CountsSlack(joined, g, r.Counted()) && !Sticks(joined, g, r))
            && (at + got <= fileSize ==> Rolling(joined, g, r, at + got, n + got))
  {
    var g, r := GeoOf(size, fileSize, start), ReqOf(len, size);
    if !Waits(g, r, n) {
      var p := TurnIs(roots, disk, size, owner, fileSize, start, scratchOk, len, n, at, got);
      RollingTurn(Joined(roots, disk, size, fileSize, scratchOk), g, p, r, n, got);
    }
  }

  /** Once the end has been passed, a turn is only possible at a position that wrapped, and it leaves
      what was delivered. */
  lemma PreadAgain(roots: Roots, disk: Disk, g: Geo, scratchOk: bool, buf: seq<Byte>, buf': seq<Byte>, n: nat, at: nat, got: nat)
    requires GeoOk(g) && PreadOk(roots, disk, g, scratchOk, buf, n, at, true) && Brings(roots, disk, g, scratchOk, buf, buf', n, at, got)
    ensures PreadOk(roots, disk, g, scratchOk, buf', n + got, (at + got) % U32, true)
  {
    PastIsBehind(g);
    forall i: nat | i < g.fileSize - g.start
      ensures buf'[i] == buf[i]
    {
      assert buf'[i] == buf'[..n][i] == buf[..n][i];
    }
  }

  /** What has been delivered is a slice of the file. */
  lemma PreadDelivers(roots: Roots, disk: Disk, g: Geo, scratchOk: bool, buf: seq<Byte>, n: nat, at: nat, past: bool)
    requires GeoOk(g) && PreadOk(roots, disk, g, scratchOk, buf, n, at, past)
    ensures var d := Min(n, Due(g.start, g.fileSize, |buf|));
            && (d == 0 || g.start + d <= g.fileSize)
            && buf[..d] == if d == 0 then [] else Content(roots, disk, g.size, g.fileSize)[g.start..g.start + d]
  {
    var d := Min(n, Due(g.start, g.fileSize, |buf|));
    assert Delivered(buf, d, roots, disk, g.size, g.start);
    SliceIs(buf, d, roots, disk, g.size, g.start, g.fileSize);
  }

  /** The end of the loop. */
  lemma PreadEnds(roots: Roots, disk: Disk, g: Geo, scratchOk: bool, buf: seq<Byte>, n: nat, at: nat, past: bool, stuck: bool)
    requires GeoOk(g) && g.fileSize < U32 && PreadOk(roots, disk, g, scratchOk, buf, n, at, past)
    requires if stuck then n < |buf| && at < g.fileSize && (|buf| - n) % U32 == 0 else n == |buf| || g.fileSize <= at
    ensures var joined, r := Joined(roots, disk, g.size, g.fileSize, scratchOk), ReqOf(|buf|, g.size);
            && (!stuck ==> (n == Due(g.start, g.fileSize, |buf|) <==> !past) && (past <==> CountsSlack(joined, g, r.Counted())))
            && (PaddedEnd(g) < U32 || !past ==> (stuck <==> Sticks(joined, g, r)))
  {
    var joined, r := Joined(roots, disk, g.size, g.fileSize, scratchOk), ReqOf(|buf|, g.size);
    if past {
      PastIsBehind(g);
    } else {
      if stuck { WholeWords(|buf|, n); }
      SteadyEnds(joined, g, r, at, n, stuck);
      if !stuck { UnderwayEnds(joined, g, at, r.Counted(), n); }
    }
  }

  lemma PastIsBehind(g: Geo)
    requires GeoOk(g)
    ensures g.fileSize < PaddedEnd(g)
  {
    assert (g.last + 1) * g.size == g.last * g.size + g.size;
  }

  /** A file of 7447 bytes in eight consecutive blocks of 1024 bytes, read as a whole. */
  lemma SevenAndAQuarter(roots: Roots, disk: Disk, scratchOk: bool)
    requires roots[..8] == [100, 101, 102, 103, 104, 105, 106, 107]
    ensures CountsSlack(Joined(roots, disk, 1024, 7447, scratchOk), GeoOf(1024, 7447, 0), 8192)
    ensures PaddedEnd(GeoOf(1024, 7447, 0)) == 8192 && Due(0, 7447, 8192) == 7447
  {
    forall j: nat | 0 < j <= 7
      ensures j in Joined(roots, disk, 1024, 7447, scratchOk)
    {
      var block := BlockOf(roots, disk, 1024);
      assert block(j) == roots[j] == roots[..8][j] && block(j - 1) == roots[j - 1] == roots[..8][j - 1];
    }
    assert Reaches(Joined(roots, disk, 1024, 7447, scratchOk), GeoOf(1024, 7447, 0), 0);
  }

  /** A request of 2^32 + 1500 bytes for a file of 7447: the place is in block 1, and whether a turn
      begins there depends on where that block lies. */
  lemma FifteenHundredMore(roots: Roots, disk: Disk, scratchOk: bool)
    ensures Sticks(Joined(roots, disk, 1024, 7447, scratchOk), GeoOf(1024, 7447, 0), ReqOf(U32 + 1500, 1024))
            <==> roots[0] == 0 || roots[1] != roots[0] + 1
  {
    var joined, g := Joined(roots, disk, 1024, 7447, scratchOk), GeoOf(1024, 7447, 0);
    var block := BlockOf(roots, disk, 1024);
    assert block(0) == roots[0] && block(1) == roots[1];
    assert 1 in joined <==> roots[0] != 0 && roots[1] == roots[0] + 1;
    assert 1 !in joined ==> Comes(joined, g, 1, 1);
    assert ReqOf(U32 + 1500, 1024) == Req(U32 + 1500, 1500, false);
    assert 1500 / 1024 == 1;
  }
}
