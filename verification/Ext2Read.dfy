/** The read loops of an ext2 file (kernel/fs/ext2.c, ext2_vfs_read and ext2_vfs_pread), turn by
    turn: what one turn brings into the buffer, when it brings nothing, and when it runs past the
    end of the file. */
module Ext2Read {
  import opened Arithmetic
  import opened Ext2Tree
  import opened Ext2Bytes

  const AHCI_DMA_SECTORS: nat := 1024

  // ---------------------------------------------------------------- reading a run

  /** What one disk transfer of `run` blocks from `phys` delivers. */
  function RunBytes(disk: Disk, phys: nat, run: nat, size: nat): (r: seq<Byte>)
    requires size > 0 && phys + run <= |disk| && DiskOk(disk, size)
    ensures |r| == run * size
  {
    if run == 0 then [] else RunBytes(disk, phys, run - 1, size) + disk[phys + run - 1]
  }

  lemma {:induction false} RunBytesAt(disk: Disk, phys: nat, run: nat, size: nat, r: nat, o: nat)
    requires size > 0 && phys + run <= |disk| && DiskOk(disk, size) && r < run && o < size
    ensures 0 <= r * size + o < run * size
    ensures RunBytes(disk, phys, run, size)[r * size + o] == disk[phys + r][o]
  {
    Monotone(r + 1, run, size);
    if r < run - 1 {
      RunBytesAt(disk, phys, run - 1, size, r, o);
    }
  }

  lemma RunFits(run: nat, room: nat, size: nat)
    requires size > 0
    ensures run <= room / size ==> run * size <= room
  {
    Monotone(run, room / size, size);
  }

  /** All the blocks of a run exist. */
  lemma {:induction false} RunOnDisk(roots: Roots, disk: Disk, size: nat, owner: map<nat, Pos>, idx: nat, max: nat, phys: nat, run: nat)
    requires Owns(roots, disk, size / 4, owner, true) && |disk| < U32
    requires phys == GetBlock(roots, disk, idx, size) != 0 && 1 <= run
    requires forall j: nat | idx < j < idx + run :: GetBlock(roots, disk, j, size) == (phys + (j - idx)) % U32
    ensures phys + run <= |disk|
    ensures forall j: nat | idx <= j < idx + run :: GetBlock(roots, disk, j, size) == phys + (j - idx)
  {
    DataOwner(roots, disk, size, owner, idx);
    if run > 1 {
      RunOnDisk(roots, disk, size, owner, idx, max, phys, run - 1);
      var j := idx + run - 1;
      assert GetBlock(roots, disk, j, size) == (phys + (j - idx)) % U32 == phys + (j - idx);
      DataOwner(roots, disk, size, owner, j);
    }
  }

  // ---------------------------------------------------------------- one turn

  /** A tree on a disk that the read loops can follow. */
  ghost predicate Readable(roots: Roots, disk: Disk, size: nat, owner: map<nat, Pos>)
  {
    (size == 1024 || size == 2048 || size == 4096) && DiskOk(disk, size) && |disk| < U32 && Owns(roots, disk, size / 4, owner, true)
  }

  function Min(a: nat, b: nat): nat
  {
    if a < b then a else b
  }

  /** `to_copy`: what is left of the request, in 32 bits, of the block and of the file. */
  function Want(rest: nat, at: nat, fileSize: nat, size: nat): nat
    requires size > 0 && at <= fileSize
  {
    Min(Min(rest % U32, size - at % size), fileSize - at)
  }

  /** Whether a turn takes whole blocks. */
  predicate Fast(rest: nat, at: nat, fileSize: nat, size: nat)
    requires size > 0 && at <= fileSize
  {
    at % size == 0 && Want(rest, at, fileSize, size) == size
  }

  function DmaCap(size: nat): nat
    requires size >= 512
  {
    AHCI_DMA_SECTORS / (size / 512)
  }

  /** `file_blks_left`: the bytes left of the file, rounded up in 32 bits, as blocks. */
  function BlocksLeft32(remain: nat, size: nat): nat
    requires size >= 512
  {
    var up := (remain + size - 1) % U32;
    up / size
  }

  /** `max_run`: bounded by the request and by the file, both in 32 bits, and by one disk transfer. */
  function MaxRun(rest: nat, at: nat, fileSize: nat, size: nat): nat
    requires size >= 512 && at <= fileSize
  {
    var asked := Min((rest / size) % U32, BlocksLeft32(fileSize - at, size));
    Min(if asked == 0 then 1 else asked, DmaCap(size))
  }

  /** The blocks of one fast turn. */
  ghost predicate TakesRun(roots: Roots, disk: Disk, size: nat, idx: nat, max: nat, scratchOk: bool, run: nat)
  {
    var phys := GetBlock(roots, disk, idx, size);
    && 1 <= run <= max && (phys == 0 ==> run == 1)
    && (phys != 0 && (scratchOk || idx < 12) ==> IsRun(roots, disk, size, idx, max, phys, run))
    && (!scratchOk && idx >= 12 ==> run == 1)
  }

  /** What a turn at `at` with `rest` bytes of the request left brings. */
  ghost predicate TurnGets(roots: Roots, disk: Disk, size: nat, fileSize: nat, at: nat, rest: nat, scratchOk: bool, got: nat)
    requires size >= 512 && at <= fileSize
  {
    if Fast(rest, at, fileSize, size) then
      exists run: nat :: got == run * size && TakesRun(roots, disk, size, at / size, MaxRun(rest, at, fileSize, size), scratchOk, run)
    else
      got == Want(rest, at, fileSize, size)
  }

  lemma MaxRunFits(rest: nat, at: nat, fileSize: nat, size: nat)
    requires (size == 1024 || size == 2048 || size == 4096) && at < fileSize && Fast(rest, at, fileSize, size)
    ensures 1 <= MaxRun(rest, at, fileSize, size) && MaxRun(rest, at, fileSize, size) * size <= rest
  {
    var max := MaxRun(rest, at, fileSize, size);
    ModSmaller(rest / size);
    RunFits(max, rest, size);
    WholeBlockLeft(rest, size);
  }

  lemma ModSmaller(x: nat)
    ensures x % U32 <= x
  {
  }

  lemma WholeBlockLeft(rest: nat, size: nat)
    requires 0 < size <= rest % U32
    ensures size <= rest && 1 <= rest / size
  {
    ModSmaller(rest);
    QuotientAtLeast(rest, size);
  }

  lemma QuotientAtLeast(rest: nat, size: nat)
    requires 0 < size <= rest
    ensures 1 <= rest / size
  {
    var q := rest / size;
    assert rest == q * size + rest % size;
    assert q == 0 ==> q * size == 0;
  }

  /** The fast path: a block-aligned run of whole blocks, read straight from the disk. */
  method ReadRun(roots: Roots, disk: Disk, size: nat, ghost owner: map<nat, Pos>, fileSize: nat, at: nat, rest: nat, scratchOk: bool)
    returns (data: seq<Byte>)
    requires Readable(roots, disk, size, owner) && at < fileSize && Fast(rest, at, fileSize, size)
    ensures |data| <= rest && TurnGets(roots, disk, size, fileSize, at, rest, scratchOk, |data|)
    ensures forall i: nat | i < |data| :: data[i] == ByteAt(roots, disk, size, at + i)
  {
    var idx, maxRun := at / size, MaxRun(rest, at, fileSize, size);
    var phys, run := BuildRun(roots, disk, size, idx, maxRun, scratchOk);
    MaxRunFits(rest, at, fileSize, size);
    Monotone(run, maxRun, size);
    assert TakesRun(roots, disk, size, idx, maxRun, scratchOk, run);
    if phys == 0 {
      HoleBytes(roots, disk, size, at, idx);
      data := Zero(size);
    } else {
      RunOnDisk(roots, disk, size, owner, idx, maxRun, phys, run);
      RunIsFile(roots, disk, size, at, idx, phys, run);
      data := RunBytes(disk, phys, run, size);
    }
  }

  /** The slow path: part of one block. */
  method ReadPart(roots: Roots, disk: Disk, size: nat, ghost owner: map<nat, Pos>, at: nat, count: nat) returns (data: seq<Byte>)
    requires Readable(roots, disk, size, owner) && at % size + count <= size
    ensures |data| == count && forall i: nat | i < count :: data[i] == ByteAt(roots, disk, size, at + i)
  {
    var idx, off := at / size, at % size;
    var b := GetBlock(roots, disk, idx, size);
    if b == 0 {
      data := Zero(count);
    } else {
      DataOwner(roots, disk, size, owner, idx);
      data := disk[b][off..off + count];
    }
    PartIsFile(roots, disk, size, at, idx, off, b, data);
  }

  /** The body of both read loops up to the clamp: the buffer gets the file's bytes, and the turn
      brings nothing exactly when the rest of the request is a multiple of 2^32. */
  method Transfer(roots: Roots, disk: Disk, size: nat, ghost owner: map<nat, Pos>, fileSize: nat, dst: array<Byte>, n: nat, at: nat, scratchOk: bool)
    returns (got: nat)
    requires Readable(roots, disk, size, owner) && n < dst.Length && at < fileSize
    modifies dst
    ensures n + got <= dst.Length && TurnGets(roots, disk, size, fileSize, at, dst.Length - n, scratchOk, got)
    ensures got == 0 <==> (dst.Length - n) % U32 == 0
    ensures dst[..n] == old(dst[..n]) && Delivered(dst[n..], got, roots, disk, size, at)
  {
    var data := Fetch(roots, disk, size, owner, fileSize, dst.Length - n, at, scratchOk);
    TurnAdvances(roots, disk, size, fileSize, at, dst.Length - n, scratchOk, |data|);
    CopyOut(dst, n, data);
    got := |data|;
  }

  /** The bytes of one turn, by whole blocks or from one block. */
  method Fetch(roots: Roots, disk: Disk, size: nat, ghost owner: map<nat, Pos>, fileSize: nat, rest: nat, at: nat, scratchOk: bool)
    returns (data: seq<Byte>)
    requires Readable(roots, disk, size, owner) && rest > 0 && at < fileSize
    ensures |data| <= rest && TurnGets(roots, disk, size, fileSize, at, rest, scratchOk, |data|)
    ensures Delivered(data, |data|, roots, disk, size, at)
  {
    if Fast(rest, at, fileSize, size) {
      data := ReadRun(roots, disk, size, owner, fileSize, at, rest, scratchOk);
    } else {
      data := ReadPart(roots, disk, size, owner, at, Want(rest, at, fileSize, size));
    }
  }

  method CopyOut(dst: array<Byte>, n: nat, data: seq<Byte>)
    requires n + |data| <= dst.Length
    modifies dst
    ensures dst[..n] == old(dst[..n]) && dst[n..][..|data|] == data
  {
    forall i | 0 <= i < |data| { dst[n + i] := data[i]; }
    assert forall i: nat | i < |data| :: dst[n..][i] == data[i];
  }

  lemma TurnAdvances(roots: Roots, disk: Disk, size: nat, fileSize: nat, at: nat, rest: nat, scratchOk: bool, got: nat)
    requires size >= 512 && at < fileSize && rest > 0 && TurnGets(roots, disk, size, fileSize, at, rest, scratchOk, got)
    ensures got == 0 <==> rest % U32 == 0
  {
    if Fast(rest, at, fileSize, size) {
      var run: nat :| got == run * size && TakesRun(roots, disk, size, at / size, MaxRun(rest, at, fileSize, size), scratchOk, run);
      Monotone(1, run, size);
    }
  }

  // ---------------------------------------------------------------- what was delivered

  /** The first `n` bytes of the buffer are the file's bytes from `start` on. */
  ghost predicate Delivered(buf: seq<Byte>, n: nat, roots: Roots, disk: Disk, size: nat, start: nat)
  {
    size > 0 && n <= |buf| && forall i: nat | i < n :: buf[i] == ByteAt(roots, disk, size, start + i)
  }

  lemma MoreDelivered(buf: seq<Byte>, buf': seq<Byte>, n: nat, got: nat, roots: Roots, disk: Disk, size: nat, start: nat)
    requires Delivered(buf, n, roots, disk, size, start) && |buf'| == |buf| && buf'[..n] == buf[..n]
    requires Delivered(buf'[n..], got, roots, disk, size, start + n)
    ensures Delivered(buf', n + got, roots, disk, size, start)
  {
    forall i: nat | i < n + got
      ensures buf'[i] == ByteAt(roots, disk, size, start + i)
    {
      if i < n {
        assert buf'[i] == buf'[..n][i] == buf[..n][i];
      } else {
        assert buf'[i] == buf'[n..][i - n];
      }
    }
  }

  lemma FewerDelivered(buf: seq<Byte>, n: nat, m: nat, roots: Roots, disk: Disk, size: nat, start: nat)
    requires Delivered(buf, n, roots, disk, size, start) && m <= n
    ensures Delivered(buf, m, roots, disk, size, start)
  {
  }

  lemma SliceIs(buf: seq<Byte>, n: nat, roots: Roots, disk: Disk, size: nat, start: nat, len: nat)
    requires Delivered(buf, n, roots, disk, size, start) && (n == 0 || start + n <= len)
    ensures buf[..n] == if n == 0 then [] else Content(roots, disk, size, len)[start..start + n]
  {
  }

  lemma ByteOf(roots: Roots, disk: Disk, size: nat, idx: nat, off: nat, x: nat)
    requires off < size && x == idx * size + off
    ensures ByteAt(roots, disk, size, x) == Cell(roots, disk, size, idx, off)
  {
    DivMod(idx, off, size);
  }

  lemma PartIsFile(roots: Roots, disk: Disk, size: nat, pos: nat, idx: nat, off: nat, b: nat, data: seq<Byte>)
    requires size > 0 && DiskOk(disk, size) && b == GetBlock(roots, disk, idx, size) && (b == 0 || b < |disk|)
    requires pos == idx * size + off && off + |data| <= size
    requires if b == 0 then data == Zero(|data|) else data == disk[b][off..off + |data|]
    ensures forall i: nat | i < |data| :: data[i] == ByteAt(roots, disk, size, pos + i)
  {
    forall i: nat | i < |data|
      ensures data[i] == ByteAt(roots, disk, size, pos + i)
    {
      ByteOf(roots, disk, size, idx, off + i, pos + i);
    }
  }

  lemma HoleBytes(roots: Roots, disk: Disk, size: nat, pos: nat, idx: nat)
    requires size > 0 && pos == idx * size && GetBlock(roots, disk, idx, size) == 0
    ensures forall i: nat | i < size :: Zero(size)[i] == ByteAt(roots, disk, size, pos + i)
  {
    forall i: nat | i < size
      ensures Zero(size)[i] == ByteAt(roots, disk, size, pos + i)
    {
      ByteOf(roots, disk, size, idx, i, pos + i);
    }
  }

  /** The transferred bytes are the file's bytes. */
  lemma RunIsFile(roots: Roots, disk: Disk, size: nat, pos: nat, idx: nat, phys: nat, run: nat)
    requires size > 0 && DiskOk(disk, size) && pos == idx * size && 0 < phys && phys + run <= |disk|
    requires forall j: nat | idx <= j < idx + run :: GetBlock(roots, disk, j, size) == phys + (j - idx)
    ensures forall i: nat | i < run * size :: RunBytes(disk, phys, run, size)[i] == ByteAt(roots, disk, size, pos + i)
  {
    forall i: nat | i < run * size
      ensures RunBytes(disk, phys, run, size)[i] == ByteAt(roots, disk, size, pos + i)
    {
      var r, o := SplitIndex(i, size, run, idx, pos);
      RunByte(roots, disk, size, idx, phys, run, r, o, i, pos + i);
    }
  }

  lemma SplitIndex(i: nat, size: nat, run: nat, idx: nat, pos: nat) returns (r: nat, o: nat)
    requires size > 0 && i < run * size && pos == idx * size
    ensures r < run && o < size && i == r * size + o && pos + i == (idx + r) * size + o
  {
    r, o := i / size, i % size;
    Monotone(run, r, size);
    assert (idx + r) * size == idx * size + r * size;
  }

  lemma RunByte(roots: Roots, disk: Disk, size: nat, idx: nat, phys: nat, run: nat, r: nat, o: nat, i: nat, x: nat)
    requires DiskOk(disk, size) && 0 < phys && phys + run <= |disk| && r < run && o < size
    requires GetBlock(roots, disk, idx + r, size) == phys + r
    requires i == r * size + o && x == (idx + r) * size + o && i < run * size
    ensures RunBytes(disk, phys, run, size)[i] == ByteAt(roots, disk, size, x)
  {
    RunBytesAt(disk, phys, run, size, r, o);
    ByteOf(roots, disk, size, idx + r, o, x);
  }
}
