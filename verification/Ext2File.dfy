/** An open ext2 file (kernel/fs/ext2.c): reads are slices of, and writes are overlays on, one
    sequence of bytes, up to the places where 32-bit positions and lengths wrap. */
module Ext2File {
  import opened Ext2Tree
  import opened Ext2Volume
  import opened Ext2Bytes
  import opened Ext2Read
  import opened Ext2Pread
  import opened Ext2Stuck
  import opened Ext2Loops
  import opened Ext2Write

  /** Blocks that neither belong to the file nor were free keep their image. */
  ghost predicate OthersKept(owner: map<nat, Pos>, free: set<nat>, disk: Disk, disk': Disk)
  {
    |disk'| == |disk| && forall c: nat | c < |disk| && c !in owner && c !in free :: disk'[c] == disk[c]
  }

  class OpenFile {
    const vol: Volume
    var roots: Roots
    var fileSize: nat
    var pos: nat
    ghost var owner: map<nat, Pos>
    ghost var bytes: seq<Byte>

    ghost predicate TreeOk()
      reads this, vol
    {
      vol.Valid() && Tied(roots, vol.disk, vol.free, vol.size / 4, owner, true)
    }

    /** `bytes` is what the disk holds for this file, and nothing but zeros lies past its end. */
    ghost predicate Valid()
      reads this, vol
    {
      && TreeOk() && fileSize < U32 && pos < U32
      && bytes == Content(roots, vol.disk, vol.size, fileSize)
      && TailZero(roots, vol.disk, vol.size, fileSize)
    }

    /** A descriptor at position 0 of a file whose bytes past the end are zero. */
    constructor (vol: Volume, roots: Roots, fileSize: nat, ghost owner: map<nat, Pos>)
      requires vol.Valid() && Tied(roots, vol.disk, vol.free, vol.size / 4, owner, true) && fileSize < U32
      requires TailZero(roots, vol.disk, vol.size, fileSize)
      ensures Valid() && this.vol == vol && pos == 0 && this.owner == owner
      ensures bytes == Content(roots, vol.disk, vol.size, fileSize)
    {
      this.vol, this.roots, this.fileSize, this.pos, this.owner := vol, roots, fileSize, 0, owner;
      this.bytes := Content(roots, vol.disk, vol.size, fileSize);
    }

    /** The block behind logical block `idx`; a hole gets a fresh zeroed block.  0 on failure. */
    method ProvideBlock(idx: nat) returns (b: nat)
      requires TreeOk()
      modifies this`roots, this`owner, vol
      ensures TreeOk()
      ensures b == GetBlock(roots, vol.disk, idx, vol.size)
      ensures PutCells(old(roots), old(vol.disk), roots, vol.disk, vol.size, idx, 0, [])
      ensures Follows(old(owner), old(vol.free), old(vol.disk), owner, vol.free, vol.disk)
      ensures forall j: nat | j != idx :: GetBlock(roots, vol.disk, j, vol.size) == GetBlock(old(roots), old(vol.disk), j, vol.size)
      ensures b == 0 ==> Place(idx, vol.size / 4).None? || |vol.free| <= 1
      ensures b == 0 ==> Untouched(old(owner), old(vol.disk), owner, vol.disk) && old(vol.free) <= vol.free + {roots[13]}
    {
      b := GetBlock(roots, vol.disk, idx, vol.size);
      if b == 0 {
        b := vol.AllocBlock();
        if b == 0 { return; }
        var ok := LinkBlock(idx, b);
        if !ok {
          vol.FreeBlock(b);
          b := 0;
        }
      }
    }

    /** Zero a block that was just allocated and make it logical block `idx`. */
    method LinkBlock(idx: nat, b: nat) returns (ok: bool)
      requires TreeOk() && GetBlock(roots, vol.disk, idx, vol.size) == 0
      requires 0 < b < |vol.disk| && b !in owner && b !in vol.free
      modifies this`roots, this`owner, vol
      ensures TreeOk() && (ok || (b !in owner && b !in vol.free))
      ensures GetBlock(roots, vol.disk, idx, vol.size) == if ok then b else 0
      ensures PutCells(old(roots), old(vol.disk), roots, vol.disk, vol.size, idx, 0, [])
      ensures forall j: nat | j != idx :: GetBlock(roots, vol.disk, j, vol.size) == GetBlock(old(roots), old(vol.disk), j, vol.size)
      ensures OthersKept(old(owner), old(vol.free) + {b}, old(vol.disk), vol.disk)
      ensures forall c | c in owner :: c in old(owner) || c in old(vol.free) || c == b
      ensures vol.free <= old(vol.free)
      ensures !ok ==> Place(idx, vol.size / 4).None? || vol.free == {}
      ensures !ok ==> Untouched(old(owner), old(vol.disk), owner, vol.disk) && old(vol.free) <= vol.free + {roots[13]}
    {
      ghost var disk0, free0 := vol.disk, vol.free;
      ZeroKeepsTree(roots, vol.disk, vol.size, owner, b);
      vol.disk := vol.disk[b := Zero(vol.size)];
      var roots';
      ghost var owner';
      ok, roots', owner' := vol.SetBlock(roots, idx, b, owner, true);
      FreshBlockCells(roots, disk0, roots', vol.disk, vol.size, owner, owner', free0, vol.free, ok, idx, b);
      ExtendsKeepsOthers(owner, free0, disk0, b, Zero(vol.size), owner', vol.disk, vol.free);
      if !ok { OneTaken(roots', vol.disk, vol.size / 4, owner, disk0[b := Zero(vol.size)], free0, owner', vol.free); }
      roots, owner := roots', if ok then owner'[b := Place(idx, vol.size / 4).value] else owner';
    }

    /** One turn of the write loop: `chunk` goes into the block that holds `pos`. */
    method WriteChunk(chunk: seq<Byte>) returns (ok: bool)
      requires TreeOk() && pos % vol.size + |chunk| <= vol.size
      modifies this`roots, this`owner, vol
      ensures TreeOk() && Follows(old(owner), old(vol.free), old(vol.disk), owner, vol.free, vol.disk)
      ensures Written(old(roots), old(vol.disk), roots, vol.disk, vol.size, pos, if ok then chunk else [])
      ensures !ok ==> Place(pos / vol.size, vol.size / 4).None? || |vol.free| <= 1
    {
      var idx, off := pos / vol.size, pos % vol.size;
      var b := ProvideBlock(idx);
      ok := b != 0;
      NoChunk(old(roots), old(vol.disk), roots, vol.disk, vol.size, pos);
      if ok {
        ghost var disk1 := vol.disk;
        Overwrite(b, idx, off, chunk);
        assert [] + chunk == chunk;
        WrittenTwice(old(roots), old(vol.disk), roots, disk1, roots, vol.disk, vol.size, pos, [], chunk);
      }
    }

    /** Read-modify-write of one block; a chunk that fills the block is written without a read. */
    method Overwrite(b: nat, idx: nat, off: nat, chunk: seq<Byte>)
      requires TreeOk() && idx == pos / vol.size && off == pos % vol.size && off + |chunk| <= vol.size
      requires b == GetBlock(roots, vol.disk, idx, vol.size) != 0
      modifies vol`disk
      ensures TreeOk() && Written(roots, old(vol.disk), roots, vol.disk, vol.size, pos, chunk)
      ensures |vol.disk| == |old(vol.disk)| && b in owner && forall c: nat | c < |vol.disk| && c != b :: vol.disk[c] == old(vol.disk)[c]
    {
      Chunk(roots, vol.disk, vol.size, owner, pos, idx, off, chunk, b);
      var image := chunk;
      if off != 0 || |chunk| != vol.size { image := Splice(vol.disk[b], off, chunk); }
      assert image == Splice(vol.disk[b], off, chunk);
      vol.disk := vol.disk[b := image];
    }

    /** ext2_vfs_write.  The file's bytes become the overlay exactly when the end of what was written
        stays below 2^32, where the 32-bit position starts again at 0, and the write is not one of no
        bytes that grows the file.  `stuck` is as for `Read`: a request of 2^32 bytes or more ends
        with a full volume or does not end. */
    method Write(buf: seq<Byte>, append: bool) returns (n: nat, stuck: bool)
      requires Valid()
      modifies this, vol
      ensures TreeOk() && n <= |buf| && Follows(old(owner), old(vol.free), old(vol.disk), owner, vol.free, vol.disk)
      ensures buf == [] ==> n == 0 && !stuck && Valid() && pos == old(pos) && bytes == old(bytes)
      ensures buf != [] ==> var start := if append then old(fileSize) else old(pos);
                && pos == (start + n) % U32 && fileSize == SizeAfter(old(fileSize), start, n, vol.size, n > 0 || stuck) < U32
                && Wrote(old(roots), old(vol.disk), roots, vol.disk, vol.size, start, buf[..n])
                && bytes == Content(roots, vol.disk, vol.size, fileSize)
                && (bytes == Overlay(old(bytes), start, buf[..n]) <==> start + n < U32 && (n > 0 || !stuck || start <= old(fileSize)))
                && (start + n < U32 ==> Valid())
      ensures |buf| >= U32 ==> n <= |buf| % U32
      ensures stuck ==> |buf| >= U32 && n == |buf| % U32
      ensures n < |buf| && !stuck ==> Place(pos / vol.size, vol.size / 4).None? || |vol.free| <= 1
    {
      n, stuck := 0, false;
      if buf == [] { return; }
      if append { pos := fileSize; }
      n, stuck := WriteHere(buf);
    }

    /** The write from the position on. */
    method WriteHere(buf: seq<Byte>) returns (n: nat, stuck: bool)
      requires Valid()
      modifies this, vol
      ensures TreeOk() && n <= |buf| && Follows(old(owner), old(vol.free), old(vol.disk), owner, vol.free, vol.disk)
      ensures pos == (old(pos) + n) % U32 && fileSize == SizeAfter(old(fileSize), old(pos), n, vol.size, n > 0 || stuck) < U32
      ensures Wrote(old(roots), old(vol.disk), roots, vol.disk, vol.size, old(pos), buf[..n])
      ensures bytes == Content(roots, vol.disk, vol.size, fileSize)
      ensures bytes == Overlay(old(bytes), old(pos), buf[..n]) <==> old(pos) + n < U32 && (n > 0 || !stuck || old(pos) <= old(fileSize))
      ensures old(pos) + n < U32 ==> Valid()
      ensures |buf| >= U32 ==> n <= |buf| % U32
      ensures stuck ==> |buf| >= U32 && n == |buf| % U32
      ensures n < |buf| && !stuck ==> Place(pos / vol.size, vol.size / 4).None? || |vol.free| <= 1
    {
      ghost var start, len, roots0, disk0, low := pos, fileSize, roots, vol.disk, |buf| % U32;
      if |buf| < U32 { SmallMod(|buf|); }
      n, stuck := WriteAll(buf);
      bytes := Content(roots, vol.disk, vol.size, fileSize);
      WriteEnds(roots0, disk0, roots, vol.disk, vol.size, start, buf, n, low, len, pos, fileSize, n > 0 || stuck);
    }

    /** The write loop. */
    method WriteAll(buf: seq<Byte>) returns (n: nat, stuck: bool)
      requires TreeOk() && fileSize < U32 && pos < U32
      modifies this`roots, this`owner, this`pos, this`fileSize, vol
      ensures TreeOk() && Follows(old(owner), old(vol.free), old(vol.disk), owner, vol.free, vol.disk)
      ensures WriteOk(old(roots), old(vol.disk), roots, vol.disk, vol.size, old(pos), buf, n, |buf| % U32, old(fileSize), pos, fileSize, n > 0 || stuck)
      ensures stuck ==> n == |buf| % U32 < |buf|
      ensures n < |buf| && !stuck ==> Place(pos / vol.size, vol.size / 4).None? || |vol.free| <= 1
    {
      n, stuck := 0, false;
      var full := false;
      WriteStarts(roots, vol.disk, vol.size, pos, buf, fileSize);
      while n < |buf| && !full && !stuck
        invariant TreeOk() && Follows(old(owner), old(vol.free), old(vol.disk), owner, vol.free, vol.disk)
        invariant WriteOk(old(roots), old(vol.disk), roots, vol.disk, vol.size, old(pos), buf, n, |buf| % U32, old(fileSize), pos, fileSize, n > 0 || stuck)
        invariant full ==> Place(pos / vol.size, vol.size / 4).None? || |vol.free| <= 1
        invariant stuck ==> n == |buf| % U32 < |buf|
        decreases |buf| - n, !full && !stuck
      {
        n, full, stuck := WriteSome(buf, n, |buf| % U32, old(pos), old(fileSize), old(roots), old(vol.disk), old(owner), old(vol.free));
      }
    }

    /** The body of the write loop. */
    method WriteSome(buf: seq<Byte>, total: nat, ghost low: nat, ghost start: nat, ghost len: nat, ghost roots0: Roots, ghost disk0: Disk,
                     ghost owner0: map<nat, Pos>, ghost free0: set<nat>) returns (n: nat, full: bool, stuck: bool)
      requires TreeOk() && total < |buf| && low == |buf| % U32
      requires Follows(owner0, free0, disk0, owner, vol.free, vol.disk)
      requires WriteOk(roots0, disk0, roots, vol.disk, vol.size, start, buf, total, low, len, pos, fileSize, total > 0)
      modifies this`roots, this`owner, this`pos, this`fileSize, vol
      ensures TreeOk() && Follows(owner0, free0, disk0, owner, vol.free, vol.disk)
      ensures WriteOk(roots0, disk0, roots, vol.disk, vol.size, start, buf, n, low, len, pos, fileSize, n > 0 || stuck)
      ensures if full || stuck then n == total && !(full && stuck) else n > total
      ensures stuck ==> n == low
      ensures full ==> Place(pos / vol.size, vol.size / 4).None? || |vol.free| <= 1
    {
      RestIs(|buf|, total);
      var toWrite := ChunkLength(pos, vol.size, |buf| - total);
      var chunk := buf[total..total + toWrite];
      var ok := WriteChunk(chunk);
      FollowsTwice(owner0, free0, disk0, old(owner), old(vol.free), old(vol.disk), owner, vol.free, vol.disk);
      n := if ok then total + toWrite else total;
      full, stuck := !ok, ok && toWrite == 0;
      if ok {
        WriteTurn(roots0, disk0, old(roots), old(vol.disk), roots, vol.disk, vol.size, start, buf, total, n, low, len, pos, fileSize);
        pos := (pos + toWrite) % U32;
        if pos > fileSize { fileSize := pos; }
      } else {
        WriteStops(roots0, disk0, old(roots), old(vol.disk), roots, vol.disk, vol.size, start, buf, n, low, len, pos, fileSize, total > 0);
      }
    }

    /** ext2_vfs_read: the bytes from the position on, clamped at the end of the file.  `stuck` says
        that the loop turns for ever without advancing, which it does where the rest of the request
        is a multiple of 2^32; whether it comes there is read off the blocks of the file. */
    method Read(dst: array<Byte>, scratchOk: bool) returns (n: nat, stuck: bool)
      requires Valid()
      modifies this`pos, dst
      ensures Valid() && pos == old(pos) + n && n <= Due(old(pos), fileSize, dst.Length)
      ensures dst[..n] == if n == 0 then [] else bytes[old(pos)..old(pos) + n]
      ensures !stuck ==> n == Due(old(pos), fileSize, dst.Length)
      ensures stuck ==> n == dst.Length % U32 < Due(old(pos), fileSize, dst.Length)
      ensures stuck <==> Sticks(Joined(roots, vol.disk, vol.size, fileSize, scratchOk), GeoOf(vol.size, fileSize, old(pos)), ReqOf(dst.Length, vol.size))
      ensures dst.Length < U32 ==> !stuck
      ensures dst.Length % U32 < vol.size ==> (stuck <==> dst.Length >= U32 && old(pos) + dst.Length % U32 < fileSize)
    {
      n, stuck := 0, false;
      ghost var start := pos;
      GeoOfIsOk(vol.size, fileSize, start);
      ReadStarts(roots, vol.disk, GeoOf(vol.size, fileSize, start), scratchOk, dst[..]);
      while n < dst.Length && pos < fileSize
        invariant pos == start + n && ReadOk(roots, vol.disk, GeoOf(vol.size, fileSize, start), scratchOk, dst[..], n)
        invariant !stuck
        decreases dst.Length - n
      {
        var got := ReadSome(dst, n, start, scratchOk);
        if got == 0 { stuck := true; break; }
        n := n + got;
      }
      ReadEnds(roots, vol.disk, GeoOf(vol.size, fileSize, start), scratchOk, dst[..], n, stuck);
    }

    /** The body of the read loop. */
    method ReadSome(dst: array<Byte>, n: nat, ghost start: nat, scratchOk: bool) returns (count: nat)
      requires TreeOk() && n < dst.Length && pos == start + n && pos < fileSize < U32 && GeoOk(GeoOf(vol.size, fileSize, start))
      requires ReadOk(roots, vol.disk, GeoOf(vol.size, fileSize, start), scratchOk, dst[..], n)
      modifies this`pos, dst
      ensures pos == start + n + count && (count == 0 <==> (dst.Length - n) % U32 == 0)
      ensures ReadOk(roots, vol.disk, GeoOf(vol.size, fileSize, start), scratchOk, dst[..], n + count)
    {
      ghost var before := dst[..];
      var got := Transfer(roots, vol.disk, vol.size, owner, fileSize, dst, n, pos, scratchOk);
      count := if got > fileSize - pos then fileSize - pos else got;
      Ext2Loops.ReadTurn(roots, vol.disk, owner, vol.size, fileSize, start, scratchOk, before, dst[..], n, got, count);
      pos := pos + count;
    }

    /** ext2_vfs_pread: the same loop at a 32-bit copy of the offset, without the clamp.  The count
        is right exactly when no run of blocks takes in the slack behind the end of the file. */
    method ReadAt(dst: array<Byte>, offset: nat, scratchOk: bool) returns (n: nat, stuck: bool)
      requires Valid()
      modifies dst
      ensures var start := offset % U32;
              var d := Min(n, Due(start, fileSize, dst.Length));
              && n <= dst.Length && dst[..d] == if d == 0 then [] else bytes[start..start + d]
      ensures stuck ==> n < dst.Length && (dst.Length - n) % U32 == 0
      ensures dst.Length < U32 ==> !stuck
      ensures var joined, g := Joined(roots, vol.disk, vol.size, fileSize, scratchOk), GeoOf(vol.size, fileSize, offset % U32);
              var r := ReqOf(dst.Length, vol.size);
              && (!stuck ==> (n == Due(g.start, fileSize, dst.Length) <==> !CountsSlack(joined, g, r.Counted())))
              && (!stuck && n != Due(g.start, fileSize, dst.Length) && PaddedEnd(g) < U32 ==> n == PaddedEnd(g) - g.start)
              && (PaddedEnd(g) < U32 || !CountsSlack(joined, g, r.Counted()) ==> (stuck <==> Sticks(joined, g, r)))
    {
      var start := offset % U32;
      GeoOfIsOk(vol.size, fileSize, start);
      ghost var at, past;
      n, stuck, at, past := ReadTurns(dst, start, scratchOk);
      ReadAtIs(roots, vol.disk, GeoOf(vol.size, fileSize, start), scratchOk, dst[..], n, at, past, stuck);
    }

    /** The loop of ext2_vfs_pread. */
    method ReadTurns(dst: array<Byte>, start: nat, scratchOk: bool) returns (n: nat, stuck: bool, ghost at: nat, ghost past: bool)
      requires Valid() && GeoOk(GeoOf(vol.size, fileSize, start))
      modifies dst
      ensures PreadOk(roots, vol.disk, GeoOf(vol.size, fileSize, start), scratchOk, dst[..], n, at, past)
      ensures if stuck then n < dst.Length && at < fileSize && (dst.Length - n) % U32 == 0 else n == dst.Length || fileSize <= at
    {
      n, stuck := 0, false;
      var here: nat := start;
      past := false;
      PreadStarts(roots, vol.disk, GeoOf(vol.size, fileSize, start), scratchOk, dst[..]);
      while n < dst.Length && here < fileSize && !stuck
        invariant n <= dst.Length && (stuck ==> n < dst.Length && here < fileSize && (dst.Length - n) % U32 == 0)
        invariant PreadOk(roots, vol.disk, GeoOf(vol.size, fileSize, start), scratchOk, dst[..], n, here, past)
        decreases dst.Length - n, !stuck
      {
        var before := n;
        n, here, past := ReadTurn(dst, start, n, here, past, scratchOk);
        stuck := n == before;
      }
      at := here;
    }

    /** The body of the loop. */
    method ReadTurn(dst: array<Byte>, ghost start: nat, n: nat, at: nat, ghost past: bool, scratchOk: bool)
      returns (n': nat, at': nat, ghost past': bool)
      requires Valid() && GeoOk(GeoOf(vol.size, fileSize, start)) && n < dst.Length && at < fileSize
      requires PreadOk(roots, vol.disk, GeoOf(vol.size, fileSize, start), scratchOk, dst[..], n, at, past)
      modifies dst
      ensures n <= n' <= dst.Length && (n' == n <==> (dst.Length - n) % U32 == 0) && (n' == n ==> at' == at)
      ensures PreadOk(roots, vol.disk, GeoOf(vol.size, fileSize, start), scratchOk, dst[..], n', at', past')
    {
      ghost var before := dst[..];
      var got := Transfer(roots, vol.disk, vol.size, owner, fileSize, dst, n, at, scratchOk);
      PreadTurn(roots, vol.disk, owner, vol.size, fileSize, start, scratchOk, before, dst[..], n, at, past, got);
      SmallMod(at);
      n', at', past' := n + got, (at + got) % U32, past || fileSize < at + got;
    }

    /** ext2_vfs_seek: a position of 2^32 or more is cut to 32 bits, though the caller is told the
        whole number. */
    method Seek(offset: int, whence: nat) returns (r: int)
      requires Valid()
      modifies this`pos
      ensures Valid() && (r >= 0 ==> pos == r % U32) && (r < 0 ==> r == -1 && pos == old(pos))
      ensures whence <= 2 ==> var to := offset + (if whence == 0 then 0 else if whence == 1 then old(pos) else fileSize);
                r == if to < 0 then -1 else to
      ensures whence > 2 ==> r == -1
    {
      var to;
      if whence == 0 { to := offset; }
      else if whence == 1 { to := pos + offset; }
      else if whence == 2 { to := fileSize + offset; }
      else { return -1; }
      if to < 0 { return -1; }
      pos := to % U32;
      return to;
    }
  }

  lemma ReadAtIs(roots: Roots, disk: Disk, g: Geo, scratchOk: bool, buf: seq<Byte>, n: nat, at: nat, past: bool, stuck: bool)
    requires GeoOk(g) && g.fileSize < U32 && PreadOk(roots, disk, g, scratchOk, buf, n, at, past)
    requires if stuck then n < |buf| && at < g.fileSize && (|buf| - n) % U32 == 0 else n == |buf| || g.fileSize <= at
    ensures var d := Min(n, Due(g.start, g.fileSize, |buf|));
            && (d == 0 || g.start + d <= g.fileSize)
            && buf[..d] == if d == 0 then [] else Content(roots, disk, g.size, g.fileSize)[g.start..g.start + d]
    ensures |buf| < U32 ==> !stuck
    ensures var joined, r := Joined(roots, disk, g.size, g.fileSize, scratchOk), ReqOf(|buf|, g.size);
            && (!stuck ==> (n == Due(g.start, g.fileSize, |buf|) <==> !CountsSlack(joined, g, r.Counted())))
            && (!stuck && n != Due(g.start, g.fileSize, |buf|) && PaddedEnd(g) < U32 ==> n == PaddedEnd(g) - g.start)
            && (PaddedEnd(g) < U32 || !CountsSlack(joined, g, r.Counted()) ==> (stuck <==> Sticks(joined, g, r)))
  {
    PreadDelivers(roots, disk, g, scratchOk, buf, n, at, past);
    PreadEnds(roots, disk, g, scratchOk, buf, n, at, past, stuck);
    if stuck { WholeWords(|buf|, n); }
  }

  /** A request for 2^32 bytes, wherever bytes are left: nothing is delivered, and the loop does not end. */
  method ReadFourGiB(f: OpenFile, dst: array<Byte>, scratchOk: bool) returns (n: nat, stuck: bool)
    requires f.Valid() && dst.Length == U32 && f.pos < f.fileSize
    modifies f`pos, dst
    ensures stuck && n == 0 && f.pos == old(f.pos)
  {
    n, stuck := f.Read(dst, scratchOk);
  }

  /** A request for 2^32 + 1500 bytes of a file of 7447: all of it if its first two blocks lie side by
      side, and otherwise 1500 bytes and no end. */
  method ReadBeyondFourGiB(f: OpenFile, dst: array<Byte>, scratchOk: bool) returns (n: nat, stuck: bool)
    requires f.Valid() && f.vol.size == 1024 && f.fileSize == 7447 && f.pos == 0 && dst.Length == U32 + 1500
    modifies f`pos, dst
    ensures if f.roots[0] != 0 && f.roots[1] == f.roots[0] + 1 then !stuck && n == 7447 else stuck && n == 1500
  {
    FifteenHundredMore(f.roots, f.vol.disk, scratchOk);
    n, stuck := f.Read(dst, scratchOk);
  }

  /** A request to write 2^32 bytes, wherever there is room: nothing is written, and the loop does not end. */
  method WriteFourGiB(f: OpenFile, buf: seq<Byte>, append: bool) returns (n: nat, stuck: bool)
    requires f.Valid() && |buf| == U32
    modifies f, f.vol
    ensures n == 0 && f.pos == (if append then old(f.fileSize) else old(f.pos))
    ensures stuck || Place(f.pos / f.vol.size, f.vol.size / 4).None? || |f.vol.free| <= 1
  {
    n, stuck := f.Write(buf, append);
  }

  /** Twenty bytes written ten before 2^32: the last ten lie at the start of the file. */
  method WriteAroundTheEnd(f: OpenFile, buf: seq<Byte>) returns (n: nat, stuck: bool)
    requires f.Valid() && f.pos == U32 - 10 && |buf| == 20
    modifies f, f.vol
    ensures !stuck && f.pos == (U32 - 10 + n) % U32
    ensures n == 20 ==> f.pos == 10 && forall i: nat | i < 10 :: ByteAt(f.roots, f.vol.disk, f.vol.size, i) == buf[10 + i]
  {
    ghost var start := f.pos;
    n, stuck := f.Write(buf, false);
    assert forall i: nat | i < 10 :: Behind(i, start) == 10 + i;
  }

  /** A file of 7447 bytes in eight consecutive blocks is read as 8192 bytes. */
  method ReadAtCountsSlack(f: OpenFile, dst: array<Byte>) returns (n: nat, stuck: bool)
    requires f.Valid() && f.vol.size == 1024 && f.fileSize == 7447 && f.roots[..8] == [100, 101, 102, 103, 104, 105, 106, 107]
    requires dst.Length == 8192
    modifies dst
    ensures !stuck && n == 8192
  {
    SevenAndAQuarter(f.roots, f.vol.disk, true);
    n, stuck := f.ReadAt(dst, 0, true);
  }

  lemma NoChunk(roots: Roots, disk: Disk, roots': Roots, disk': Disk, size: nat, start: nat)
    requires size > 0 && PutCells(roots, disk, roots', disk', size, start / size, 0, [])
    ensures Written(roots, disk, roots', disk', size, start, [])
  {
    forall x: nat
      ensures ByteAt(roots', disk', size, x) == ByteAt(roots, disk, size, x)
    {
      ByteInCell(roots, disk, roots', disk', size, start / size, 0, [], x / size, x % size);
    }
  }

  lemma Chunk(roots: Roots, disk: Disk, size: nat, owner: map<nat, Pos>, start: nat, idx: nat, off: nat, chunk: seq<Byte>, b: nat)
    requires size > 0 && DiskOk(disk, size) && Owns(roots, disk, size / 4, owner, true)
    requires idx == start / size && off == start % size && off + |chunk| <= size
    requires b == GetBlock(roots, disk, idx, size) != 0
    ensures b < |disk| && b in owner
    ensures Written(roots, disk, roots, disk[b := Splice(disk[b], off, chunk)], size, start, chunk)
    ensures Owns(roots, disk[b := Splice(disk[b], off, chunk)], size / 4, owner, true)
  {
    DataWriteCells(roots, disk, size, owner, idx, off, chunk);
    var disk' := disk[b := Splice(disk[b], off, chunk)];
    assert PutCells(roots, disk, roots, disk', size, idx, off, chunk);
    CellsAreBytes(roots, disk, roots, disk', size, start, chunk);
  }

  /** The file grew by free blocks only, and no one else's block changed. */
  ghost predicate Follows(owner: map<nat, Pos>, free: set<nat>, disk: Disk, owner': map<nat, Pos>, free': set<nat>, disk': Disk)
  {
    OthersKept(owner, free, disk, disk') && free' <= free && forall c | c in owner' :: c in owner || c in free
  }

  lemma FollowsTwice(owner: map<nat, Pos>, free: set<nat>, disk: Disk, owner1: map<nat, Pos>, free1: set<nat>, disk1: Disk,
                     owner2: map<nat, Pos>, free2: set<nat>, disk2: Disk)
    requires Follows(owner, free, disk, owner1, free1, disk1) && Follows(owner1, free1, disk1, owner2, free2, disk2)
    ensures Follows(owner, free, disk, owner2, free2, disk2)
  {
  }

  /** A failed attempt took no block but the double-indirect one. */
  lemma OneTaken(roots: Roots, disk: Disk, n: nat, owner0: map<nat, Pos>, disk0: Disk, free0: set<nat>, owner: map<nat, Pos>, free: set<nat>)
    requires Owns(roots, disk, n, owner, true) && Extends(owner0, disk0, free0, owner, disk, free) && Untouched(owner0, disk0, owner, disk)
    requires owner0.Keys !! free0
    ensures free0 <= free + {roots[13]}
  {
    forall c | c in free0 && c !in free
      ensures c == roots[13]
    {
      assert c in owner && owner[c] == DoubleRoot;
      assert At(roots, disk, DoubleRoot) == roots[13];
    }
  }

  /** Zeroing a block that is not in the tree keeps the tree. */
  lemma ZeroKeepsTree(roots: Roots, disk: Disk, size: nat, owner: map<nat, Pos>, b: nat)
    requires DiskOk(disk, size) && Owns(roots, disk, size / 4, owner, true) && b < |disk| && b !in owner
    ensures DiskOk(disk[b := Zero(size)], size) && Owns(roots, disk[b := Zero(size)], size / 4, owner, true)
    ensures forall j: nat :: GetBlock(roots, disk[b := Zero(size)], j, size) == GetBlock(roots, disk, j, size)
  {
    OtherRootsKept(roots, disk, size, owner, true, b);
    forall j: nat
      ensures GetBlock(roots, disk[b := Zero(size)], j, size) == GetBlock(roots, disk, j, size)
    {
      GetBlockReadsThePlace(roots, disk, j, size);
      GetBlockReadsThePlace(roots, disk[b := Zero(size)], j, size);
    }
  }

  /** Blocks taken from the free set and zeroed or written as indirect blocks are no one else's. */
  lemma ExtendsKeepsOthers(owner: map<nat, Pos>, free: set<nat>, disk: Disk, b: nat, image: Block, owner': map<nat, Pos>,
                           disk': Disk, free': set<nat>)
    requires b < |disk| && b !in free && b !in owner
    requires Extends(owner, disk[b := image], free, owner', disk', free')
    ensures OthersKept(owner, free + {b}, disk, disk')
    ensures (forall c | c in owner' :: c in owner || c in free) && free' <= free
  {
  }
}
