/** The write loop of an ext2 file (kernel/fs/ext2.c, ext2_vfs_write), turn by turn: which bytes of
    the file it has changed, and which size it has recorded.  The position has 32 bits, so a write
    that reaches 2^32 goes on at the beginning of the file. */
module Ext2Write {
  import opened Ext2Tree
  import opened Ext2Bytes
  import opened Ext2Read
  import opened Ext2Pread

  /** `to_write`: the rest of the block or, in 32 bits, of the request. */
  function ChunkLength(pos: nat, size: nat, rest: nat): (r: nat)
    requires size > 0
    ensures pos % size + r <= size && r <= rest && (r == 0 <==> rest % U32 == 0)
  {
    Min(size - pos % size, rest % U32)
  }

  /** How far a position lies behind the start of a write, in 32 bits. */
  function Behind(x: nat, start: nat): (d: nat)
    requires x < U32 && start < U32
  {
    if start <= x then x - start else x + U32 - start
  }

  /** The data went to the positions from `start` on, in 32 bits, and nowhere else. */
  ghost predicate Wrote(roots0: Roots, disk0: Disk, roots: Roots, disk: Disk, size: nat, start: nat, data: seq<Byte>)
    requires size > 0 && start < U32
  {
    forall x: nat :: ByteAt(roots, disk, size, x)
      == if x < U32 && Behind(x, start) < |data| then data[Behind(x, start)] else ByteAt(roots0, disk0, size, x)
  }

  /** The size recorded: where the write ends, if it grows the file.  A write that passes 2^32 ends
      low, but its last turn before that began in the last block. */
  function SizeAfter(len: nat, start: nat, n: nat, size: nat, moved: bool): nat
  {
    if !moved then len
    else if start + n < U32 then Max(len, start + n)
    else if start + size < U32 then Max(len, U32 - size)
    else Max(len, start + n - U32)
  }

  function Max(a: nat, b: nat): nat
  {
    if a < b then b else a
  }

  /** Halfway through a write.  A turn ends where a block does, unless it ends the request in 32 bits. */
  ghost predicate WriteOk(roots0: Roots, disk0: Disk, roots: Roots, disk: Disk, size: nat, start: nat, buf: seq<Byte>, n: nat, low: nat,
                          len: nat, pos: nat, fileSize: nat, moved: bool)
  {
    && (size == 1024 || size == 2048 || size == 4096) && start < U32 && len < U32 && low < U32
    && n <= low <= |buf| && pos == (start + n) % U32 && (n == 0 || n == low || pos % size == 0) && (n > 0 ==> moved)
    && Wrote(roots0, disk0, roots, disk, size, start, buf[..n])
    && fileSize == SizeAfter(len, start, n, size, moved)
  }

  lemma WriteStarts(roots: Roots, disk: Disk, size: nat, start: nat, buf: seq<Byte>, len: nat)
    requires (size == 1024 || size == 2048 || size == 4096) && start < U32 && len < U32
    ensures WriteOk(roots, disk, roots, disk, size, start, buf, 0, |buf| % U32, len, start, len, false)
  {
    SmallMod(start);
    ModSmaller(|buf|);
  }

  /** Where a chunk that stays in its block ends. */
  lemma ChunkEnds(pos: nat, d: nat, size: nat)
    requires (size == 1024 || size == 2048 || size == 4096) && pos < U32 && pos % size + d <= size
    ensures pos + d <= U32 && (pos + d == U32 ==> U32 - size <= pos) && (pos % size == 0 ==> pos <= U32 - size)
    ensures pos % size + d == size ==> ((pos + d) % U32) % size == 0
  {
  }

  lemma PosOn(start: nat, total: nat, d: nat, pos: nat)
    requires start < U32 && total + d < U32 && pos == (start + total) % U32 && pos + d <= U32
    ensures (pos + d) % U32 == (start + (total + d)) % U32
    ensures start + total < U32 ==> pos == start + total
    ensures start + total >= U32 ==> pos == start + total - U32 && pos + d < start
  {
  }

  /** One more chunk at the position. */
  lemma WroteTurn(roots0: Roots, disk0: Disk, roots1: Roots, disk1: Disk, roots: Roots, disk: Disk, size: nat, start: nat,
                  data: seq<Byte>, more: seq<Byte>, pos: nat)
    requires size > 0 && start < U32 && |data| + |more| < U32 && pos == (start + |data|) % U32 && pos + |more| <= U32
    requires Wrote(roots0, disk0, roots1, disk1, size, start, data) && Written(roots1, disk1, roots, disk, size, pos, more)
    ensures Wrote(roots0, disk0, roots, disk, size, start, data + more)
  {
    PosOn(start, |data|, |more|, pos);
    forall x: nat
      ensures ByteAt(roots, disk, size, x) == if x < U32 && Behind(x, start) < |data + more| then (data + more)[Behind(x, start)]
                                              else ByteAt(roots0, disk0, size, x)
    {
      var hit := pos <= x < pos + |more|;
      if x < U32 { assert hit <==> |data| <= Behind(x, start) < |data + more|; }
      assert ByteAt(roots, disk, size, x) == if hit then more[x - pos] else ByteAt(roots1, disk1, size, x);
    }
  }

  lemma SizeTurn(len: nat, start: nat, total: nat, n: nat, size: nat, pos: nat)
    requires (size == 1024 || size == 2048 || size == 4096) && start < U32 && total <= n < U32 && pos == (start + total) % U32
    requires pos % size + (n - total) <= size && (total == 0 || n == total || pos % size == 0)
    ensures SizeAfter(len, start, n, size, true) == Max(SizeAfter(len, start, total, size, total > 0), (start + n) % U32)
  {
    ChunkEnds(pos, n - total, size);
    PosOn(start, total, n - total, pos);
    var end := pos + (n - total);
    var next := if end == U32 then 0 else end;
    if end < U32 { SmallMod(end); }
    SizeGrows(len, start, total, n, size, pos, next);
  }

  lemma SizeGrows(len: nat, start: nat, total: nat, n: nat, size: nat, pos: nat, next: nat)
    requires 0 < size < U32 && start < U32 && total <= n < U32 && pos == if start + total < U32 then start + total else start + total - U32
    requires pos + (n - total) <= U32 && next == if pos + (n - total) == U32 then 0 else pos + (n - total)
    requires pos + (n - total) == U32 ==> U32 - size <= pos && (total > 0 && n > total ==> pos == U32 - size)
    ensures SizeAfter(len, start, n, size, true) == Max(SizeAfter(len, start, total, size, total > 0), next)
  {
  }

  /** One turn of the loop. */
  lemma WriteTurn(roots0: Roots, disk0: Disk, roots1: Roots, disk1: Disk, roots: Roots, disk: Disk, size: nat, start: nat, buf: seq<Byte>,
                  total: nat, n: nat, low: nat, len: nat, pos: nat, size1: nat)
    requires WriteOk(roots0, disk0, roots1, disk1, size, start, buf, total, low, len, pos, size1, total > 0)
    requires n - total == Min(size - pos % size, low - total)
    requires Written(roots1, disk1, roots, disk, size, pos, buf[total..n])
    ensures WriteOk(roots0, disk0, roots, disk, size, start, buf, n, low, len, (pos + (n - total)) % U32, Max(size1, (pos + (n - total)) % U32), true)
  {
    ChunkEnds(pos, n - total, size);
    PosOn(start, total, n - total, pos);
    WroteTurn(roots0, disk0, roots1, disk1, roots, disk, size, start, buf[..total], buf[total..n], pos);
    assert buf[..total] + buf[total..n] == buf[..n];
    SizeTurn(len, start, total, n, size, pos);
  }

  /** A turn that failed: the block could not be had, and no byte changed. */
  lemma WriteStops(roots0: Roots, disk0: Disk, roots1: Roots, disk1: Disk, roots: Roots, disk: Disk, size: nat, start: nat, buf: seq<Byte>,
                   n: nat, low: nat, len: nat, pos: nat, size1: nat, moved: bool)
    requires WriteOk(roots0, disk0, roots1, disk1, size, start, buf, n, low, len, pos, size1, moved)
    requires Written(roots1, disk1, roots, disk, size, pos, [])
    ensures WriteOk(roots0, disk0, roots, disk, size, start, buf, n, low, len, pos, size1, moved)
  {
  }

  /** The end of the loop: the file's bytes. */
  lemma WriteEnds(roots0: Roots, disk0: Disk, roots: Roots, disk: Disk, size: nat, start: nat, buf: seq<Byte>, n: nat, low: nat,
                  len: nat, pos: nat, fileSize: nat, moved: bool)
    requires WriteOk(roots0, disk0, roots, disk, size, start, buf, n, low, len, pos, fileSize, moved) && TailZero(roots0, disk0, size, len)
    ensures fileSize < U32
    ensures Content(roots, disk, size, fileSize) == Overlay(Content(roots0, disk0, size, len), start, buf[..n])
            <==> start + n < U32 && (n > 0 || !moved || start <= len)
    ensures start + n < U32 ==> TailZero(roots, disk, size, fileSize)
  {
    var over := Overlay(Content(roots0, disk0, size, len), start, buf[..n]);
    if start + n < U32 {
      WroteIsWritten(roots0, disk0, roots, disk, size, start, buf[..n]);
      WriteIsOverlay(roots0, disk0, roots, disk, size, start, buf[..n], len);
      assert n == 0 ==> |over| == len;
    } else {
      assert |over| >= start + n;
    }
  }

  /** Below 2^32 the data lies at its own positions. */
  lemma WroteIsWritten(roots0: Roots, disk0: Disk, roots: Roots, disk: Disk, size: nat, start: nat, data: seq<Byte>)
    requires size > 0 && start + |data| < U32 && Wrote(roots0, disk0, roots, disk, size, start, data)
    ensures Written(roots0, disk0, roots, disk, size, start, data)
  {
  }
}
