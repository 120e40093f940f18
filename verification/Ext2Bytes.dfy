/** The bytes of an ext2 file (kernel/fs/ext2.c): what a block tree and a disk say the file
    holds, runs of consecutive blocks, and the effect of writing into one block. */
module Ext2Bytes {
  import opened Options
  import opened Arithmetic
  import opened Ext2Tree
  import opened Ext2Volume

  // ---------------------------------------------------------------- runs

  /** The loop of inode_build_run over one pointer array. */
  method Probe(words: seq<nat>, from: nat, max: nat) returns (run: nat)
    requires from < |words| && 0 < max
    ensures 1 <= run <= max && from + run <= |words|
    ensures forall j: nat | from < j < from + run :: words[j] == (words[from] + (j - from)) % U32
    ensures run == max || from + run == |words| || words[from + run] != (words[from] + run) % U32
  {
    var lim := |words| - from;
    if lim > max { lim := max; }
    run := 1;
    while run < lim
      invariant 1 <= run <= lim
      invariant forall j: nat | from < j < from + run :: words[j] == (words[from] + (j - from)) % U32
    {
      if words[from + run] != (words[from] + run) % U32 { break; }
      run := run + 1;
    }
  }

  /** A logical block where a pointer array starts. */
  predicate Boundary(idx: nat, n: nat)
  {
    idx == 12 || (n > 0 && idx >= 12 + n && (idx - 12 - n) % n == 0)
  }

  /** `run` blocks from `idx` lie consecutively from `phys` in one pointer array, and the run is as
      long as asked or as its pointer array allows. */
  ghost predicate IsRun(roots: Roots, disk: Disk, size: nat, idx: nat, max: nat, phys: nat, run: nat)
  {
    && 1 <= run <= max
    && (forall j: nat | idx < j < idx + run :: GetBlock(roots, disk, j, size) == (phys + (j - idx)) % U32 && !Boundary(j, size / 4))
    && (run == max || Boundary(idx + run, size / 4) || GetBlock(roots, disk, idx + run, size) != (phys + run) % U32)
  }

  /** The pointer array that holds logical blocks `base`, `base + 1`, ... up to a boundary. */
  ghost predicate Array(roots: Roots, disk: Disk, size: nat, base: nat, words: seq<nat>)
  {
    && Boundary(base + |words|, size / 4)
    && forall i: nat | i < |words| :: words[i] == GetBlock(roots, disk, base + i, size) && (i > 0 ==> !Boundary(base + i, size / 4))
  }

  lemma RunInArray(roots: Roots, disk: Disk, size: nat, base: nat, words: seq<nat>, from: nat, max: nat, run: nat)
    requires Array(roots, disk, size, base, words) && from < |words| && 1 <= run <= max && from + run <= |words|
    requires forall j: nat | from < j < from + run :: words[j] == (words[from] + (j - from)) % U32
    requires run == max || from + run == |words| || words[from + run] != (words[from] + run) % U32
    ensures IsRun(roots, disk, size, base + from, max, words[from], run)
  {
    forall j: nat | base + from < j < base + from + run
      ensures GetBlock(roots, disk, j, size) == (words[from] + (j - (base + from))) % U32 && !Boundary(j, size / 4)
    {
      assert words[j - base] == GetBlock(roots, disk, base + (j - base), size);
    }
  }

  lemma DirectArray(roots: Roots, disk: Disk, size: nat)
    ensures Array(roots, disk, size, 0, roots[..12])
  {
    forall i: nat | i < 12
      ensures roots[..12][i] == GetBlock(roots, disk, 0 + i, size) && !Boundary(0 + i, size / 4)
    {
    }
    assert Boundary(0 + |roots[..12]|, size / 4);
  }

  lemma SingleArray(roots: Roots, disk: Disk, size: nat)
    requires size >= 4 && roots[12] != 0
    ensures Array(roots, disk, size, 12, Words(disk, roots[12], size / 4))
  {
    var n, words := size / 4, Words(disk, roots[12], size / 4);
    assert n >= 1 && Boundary(12 + n, n) by { assert (12 + n - 12 - n) % n == 0; }
    forall i: nat | i < n
      ensures words[i] == GetBlock(roots, disk, 12 + i, size) && (i > 0 ==> !Boundary(12 + i, n))
    {
    }
  }

  lemma DoubleArray(roots: Roots, disk: Disk, size: nat, k: nat)
    requires k < size / 4 && L2(roots, disk, k) != 0
    ensures Array(roots, disk, size, 12 + size / 4 + k * (size / 4), Words(disk, L2(roots, disk, k), size / 4))
  {
    var n := size / 4;
    var base := 12 + n + k * n;
    Monotone(k + 1, n, n);
    DivMod(k + 1, 0, n);
    forall i: nat | i < n
      ensures Words(disk, L2(roots, disk, k), n)[i] == GetBlock(roots, disk, base + i, size) && (i > 0 ==> !Boundary(base + i, n))
    {
      DivMod(k, i, n);
    }
  }

  /** inode_build_run; `scratchOk` says whether the scratch buffers could be allocated. */
  method BuildRun(roots: Roots, disk: Disk, size: nat, idx: nat, max: nat, scratchOk: bool) returns (phys: nat, run: nat)
    requires size >= 4
    ensures max == 0 ==> phys == 0 && run == 1
    ensures max > 0 ==> phys == GetBlock(roots, disk, idx, size) && 1 <= run <= max
    ensures phys == 0 ==> run == 1
    ensures phys != 0 && (scratchOk || idx < 12) ==> IsRun(roots, disk, size, idx, max, phys, run)
    ensures !scratchOk && idx >= 12 ==> run == 1
  {
    if max == 0 { return 0, 1; }
    var n := size / 4;
    phys, run := GetBlock(roots, disk, idx, size), 1;
    if idx < 12 {
      DirectArray(roots, disk, size);
      run := RunFrom(roots, disk, size, 0, roots[..12], idx, max);
    } else if idx - 12 < n {
      if roots[12] != 0 && scratchOk {
        SingleArray(roots, disk, size);
        run := RunFrom(roots, disk, size, 12, Words(disk, roots[12], n), idx - 12, max);
      }
    } else if idx - 12 - n < n * n {
      run := RunInDouble(roots, disk, size, idx, max, scratchOk);
    }
  }

  /** The double-indirect part of inode_build_run. */
  method RunInDouble(roots: Roots, disk: Disk, size: nat, idx: nat, max: nat, scratchOk: bool) returns (run: nat)
    requires size >= 4 && max > 0 && 0 <= idx - 12 - size / 4 < (size / 4) * (size / 4)
    ensures var phys := GetBlock(roots, disk, idx, size);
            && 1 <= run <= max && (phys == 0 ==> run == 1)
            && (phys != 0 && scratchOk ==> IsRun(roots, disk, size, idx, max, phys, run))
            && (!scratchOk ==> run == 1)
  {
    var n := size / 4;
    var rel := idx - 12 - n;
    Quotient(rel, n);
    var k, i := rel / n, rel % n;
    run := 1;
    if L2(roots, disk, k) != 0 && scratchOk {
      DoubleArray(roots, disk, size, k);
      assert 12 + n + k * n + i == idx;
      run := RunFrom(roots, disk, size, 12 + n + k * n, Words(disk, L2(roots, disk, k), n), i, max);
    }
  }

  /** Reading one pinned pointer array: its first pointer and the run behind it. */
  method RunFrom(ghost roots: Roots, ghost disk: Disk, ghost size: nat, ghost base: nat, words: seq<nat>, from: nat, max: nat)
    returns (run: nat)
    requires Array(roots, disk, size, base, words) && from < |words| && max > 0
    ensures 1 <= run <= max
    ensures words[from] == 0 ==> run == 1
    ensures words[from] != 0 ==> IsRun(roots, disk, size, base + from, max, words[from], run)
  {
    run := 1;
    if words[from] != 0 {
      run := Probe(words, from, max);
      RunInArray(roots, disk, size, base, words, from, max, run);
    }
  }

  // ---------------------------------------------------------------- bytes

  /** Byte `off` of logical block `idx`; holes read as zero. */
  function Cell(roots: Roots, disk: Disk, size: nat, idx: nat, off: nat): Byte
  {
    var b := GetBlock(roots, disk, idx, size);
    if 0 < b < |disk| && off < |disk[b]| then disk[b][off] else 0
  }

  function ByteAt(roots: Roots, disk: Disk, size: nat, x: nat): Byte
    requires size > 0
  {
    Cell(roots, disk, size, x / size, x % size)
  }

  /** The first `len` bytes of the file. */
  function Content(roots: Roots, disk: Disk, size: nat, len: nat): seq<Byte>
    requires size > 0
  {
    seq(len, x requires 0 <= x => ByteAt(roots, disk, size, x))
  }

  function Splice(b: Block, off: nat, data: seq<Byte>): (r: Block)
    requires off + |data| <= |b|
    ensures |r| == |b|
  {
    b[..off] + data + b[off + |data|..]
  }

  /** Every byte is kept, but `data` now lies at `off` in block `idx`. */
  ghost predicate PutCells(roots: Roots, disk: Disk, roots': Roots, disk': Disk, size: nat, idx: nat, off: nat, data: seq<Byte>)
  {
    forall j: nat, o: nat | o < size :: Cell(roots', disk', size, j, o)
      == if j == idx && off <= o < off + |data| then data[o - off] else Cell(roots, disk, size, j, o)
  }

  /** The owned block behind a logical block has that logical block's place. */
  lemma DataOwner(roots: Roots, disk: Disk, size: nat, owner: map<nat, Pos>, idx: nat)
    requires Owns(roots, disk, size / 4, owner, true) && GetBlock(roots, disk, idx, size) != 0
    ensures var b := GetBlock(roots, disk, idx, size);
            0 < b < |disk| && b in owner && Some(owner[b]) == Place(idx, size / 4) && !IsRoot(owner[b])
  {
    GetBlockReadsThePlace(roots, disk, idx, size);
  }

  /** Overwriting a data block changes no pointer of the tree. */
  lemma DataWriteKeepsTree(roots: Roots, disk: Disk, size: nat, owner: map<nat, Pos>, b: nat, image: Block)
    requires DiskOk(disk, size) && Owns(roots, disk, size / 4, owner, true) && |image| == size
    requires b in owner && !IsRoot(owner[b])
    ensures Owns(roots, disk[b := image], size / 4, owner, true) && DiskOk(disk[b := image], size)
    ensures forall j: nat :: GetBlock(roots, disk[b := image], j, size) == GetBlock(roots, disk, j, size)
  {
    var next, n := disk[b := image], size / 4;
    assert roots[12] == At(roots, disk, SingleRoot) && roots[13] == At(roots, disk, DoubleRoot);
    forall p | InTree(p, n)
      ensures At(roots, next, p) == At(roots, disk, p)
    {
      match p
      case InDouble(k, i) => assert L2(roots, disk, k) == At(roots, disk, L2Root(k));
      case _ =>
    }
    forall j: nat
      ensures GetBlock(roots, next, j, size) == GetBlock(roots, disk, j, size)
    {
      GetBlockReadsThePlace(roots, disk, j, size);
      GetBlockReadsThePlace(roots, next, j, size);
    }
  }

  lemma DataWriteCells(roots: Roots, disk: Disk, size: nat, owner: map<nat, Pos>, idx: nat, off: nat, data: seq<Byte>)
    requires DiskOk(disk, size) && Owns(roots, disk, size / 4, owner, true) && off + |data| <= size
    requires GetBlock(roots, disk, idx, size) != 0
    ensures var b := GetBlock(roots, disk, idx, size);
            && b < |disk| && b in owner && !IsRoot(owner[b])
            && PutCells(roots, disk, roots, disk[b := Splice(disk[b], off, data)], size, idx, off, data)
            && Owns(roots, disk[b := Splice(disk[b], off, data)], size / 4, owner, true)
  {
    var b := GetBlock(roots, disk, idx, size);
    DataOwner(roots, disk, size, owner, idx);
    var image := Splice(disk[b], off, data);
    DataWriteKeepsTree(roots, disk, size, owner, b, image);
    forall j: nat, o: nat | o < size
      ensures Cell(roots, disk[b := image], size, j, o)
              == if j == idx && off <= o < off + |data| then data[o - off] else Cell(roots, disk, size, j, o)
    {
      if j != idx && GetBlock(roots, disk, j, size) == b {
        DataOwner(roots, disk, size, owner, j);
        PlaceIsInjective(idx, j, size / 4);
      }
    }
  }

  /** Giving a hole a zeroed block changes no byte, whether or not the pointer could be set. */
  lemma FreshBlockCells(roots: Roots, disk: Disk, roots': Roots, disk': Disk, size: nat, owner: map<nat, Pos>,
                        owner': map<nat, Pos>, free: set<nat>, free': set<nat>, ok: bool, idx: nat, b: nat)
    requires DiskOk(disk, size) && Owns(roots, disk, size / 4, owner, true) && b < |disk|
    requires GetBlock(roots, disk, idx, size) == 0 && b !in owner && b !in free
    requires SetsOneBlock(roots, disk[b := Zero(size)], roots', disk', size, ok, idx, b)
    requires forall j: nat :: GetBlock(roots, disk[b := Zero(size)], j, size) == GetBlock(roots, disk, j, size)
    requires Extends(owner, disk[b := Zero(size)], free, owner', disk', free')
    ensures PutCells(roots, disk, roots', disk', size, idx, 0, [])
  {
    var mid := disk[b := Zero(size)];
    assert disk'[b] == mid[b];
    forall j: nat, o: nat | o < size
      ensures Cell(roots', disk', size, j, o) == Cell(roots, disk, size, j, o)
    {
      var c := GetBlock(roots, disk, j, size);
      assert GetBlock(roots, mid, j, size) == c;
      if c != 0 { DataOwner(roots, disk, size, owner, j); }
    }
  }

  // ---------------------------------------------------------------- byte addresses

  /** Every byte is kept, but `data` now lies at `start`. */
  ghost predicate Written(roots: Roots, disk: Disk, roots': Roots, disk': Disk, size: nat, start: nat, data: seq<Byte>)
    requires size > 0
  {
    forall x: nat :: ByteAt(roots', disk', size, x)
      == if start <= x < start + |data| then data[x - start] else ByteAt(roots, disk, size, x)
  }

  /** Where a byte lies, seen from the start of a write that stays in one block. */
  lemma InSameBlock(x: nat, start: nat, size: nat, len: nat)
    requires size > 0 && start % size + len <= size
    ensures start <= x < start + len <==> x / size == start / size && start % size <= x % size < start % size + len
    ensures start <= x < start + len ==> x % size - start % size == x - start
  {
    var q, r := start / size, start % size;
    assert start == q * size + r && x == (x / size) * size + x % size;
    if x / size < q { Monotone(x / size + 1, q, size); }
    if x / size > q { Monotone(q + 1, x / size, size); }
  }

  lemma CellsAreBytes(roots: Roots, disk: Disk, roots': Roots, disk': Disk, size: nat, start: nat, data: seq<Byte>)
    requires size > 0 && start % size + |data| <= size
    requires PutCells(roots, disk, roots', disk', size, start / size, start % size, data)
    ensures Written(roots, disk, roots', disk', size, start, data)
  {
    forall x: nat
      ensures ByteAt(roots', disk', size, x)
              == if start <= x < start + |data| then data[x - start] else ByteAt(roots, disk, size, x)
    {
      ByteInCell(roots, disk, roots', disk', size, start / size, start % size, data, x / size, x % size);
      InSameBlock(x, start, size, |data|);
    }
  }

  lemma ByteInCell(roots: Roots, disk: Disk, roots': Roots, disk': Disk, size: nat, idx: nat, off: nat, data: seq<Byte>, j: nat, o: nat)
    requires PutCells(roots, disk, roots', disk', size, idx, off, data) && o < size
    ensures Cell(roots', disk', size, j, o)
            == if j == idx && off <= o < off + |data| then data[o - off] else Cell(roots, disk, size, j, o)
  {
  }

  lemma WrittenTwice(roots: Roots, disk: Disk, roots1: Roots, disk1: Disk, roots2: Roots, disk2: Disk, size: nat,
                     start: nat, data: seq<Byte>, more: seq<Byte>)
    requires size > 0 && Written(roots, disk, roots1, disk1, size, start, data)
    requires Written(roots1, disk1, roots2, disk2, size, start + |data|, more)
    ensures Written(roots, disk, roots2, disk2, size, start, data + more)
  {
  }

  /** `data` laid over `old` at `start`; a gap is filled with zeros. */
  function Overlay(bytes: seq<Byte>, start: nat, data: seq<Byte>): (r: seq<Byte>)
  {
    if data == [] then bytes
    else
      var len := if start + |data| > |bytes| then start + |data| else |bytes|;
      seq(len, x requires 0 <= x =>
        if start <= x < start + |data| then data[x - start] else if x < |bytes| then bytes[x] else 0)
  }

  ghost predicate TailZero(roots: Roots, disk: Disk, size: nat, len: nat)
    requires size > 0
  {
    forall x: nat | x >= len :: ByteAt(roots, disk, size, x) == 0
  }

  /** A write is an overlay of the file's bytes, and the bytes past the end stay zero. */
  lemma WriteIsOverlay(roots: Roots, disk: Disk, roots': Roots, disk': Disk, size: nat, start: nat, data: seq<Byte>, len: nat)
    requires size > 0 && Written(roots, disk, roots', disk', size, start, data) && TailZero(roots, disk, size, len)
    ensures var len' := if data != [] && start + |data| > len then start + |data| else len;
            && Content(roots', disk', size, len') == Overlay(Content(roots, disk, size, len), start, data)
            && TailZero(roots', disk', size, len')
  {
  }
}
