/** The block tree of an ext2 inode (kernel/fs/ext2.c): twelve direct pointers, one single- and
    one double-indirect block.  Indirect blocks are arrays of little-endian 32-bit numbers kept
    in ordinary disk blocks. */
module Ext2Tree {
  import opened Options
  import opened Arithmetic

  type Byte = b: int | 0 <= b < 256
  type Block = seq<Byte>
  type Disk = seq<Block>

  const U32: nat := 0x1_0000_0000

  // ---------------------------------------------------------------- little-endian words

  function Le32(b: Block, at: nat): (v: nat)
    requires at + 4 <= |b|
    ensures v < U32
  {
    b[at] as int + 256 * (b[at + 1] as int + 256 * (b[at + 2] as int + 256 * b[at + 3] as int))
  }

  function Byte0(v: nat): Byte { v % 256 }

  function PutLe32(b: Block, at: nat, v: nat): (r: Block)
    requires at + 4 <= |b| && v < U32
    ensures |r| == |b|
  {
    b[..at] + [Byte0(v), Byte0(v / 256), Byte0(v / 256 / 256), Byte0(v / 256 / 256 / 256)] + b[at + 4..]
  }

  lemma LeRoundTrip(b: Block, at: nat, v: nat)
    requires at + 4 <= |b| && v < U32
    ensures Le32(PutLe32(b, at, v), at) == v
    ensures forall k: nat | k < |b| && !(at <= k < at + 4) :: PutLe32(b, at, v)[k] == b[k]
  {
    var x := v / 256;
    var y := x / 256;
    var z := y / 256;
    assert v == 256 * x + v % 256 && x == 256 * y + x % 256 && y == 256 * z + y % 256 && z < 256;
  }

  /** The layout of a word: least significant byte first. */
  lemma LeBytes(b: Block, at: nat, v: nat)
    requires at + 4 <= |b| && v < U32
    ensures Le32(b, at) == b[at] as int + 0x100 * b[at + 1] as int + 0x1_0000 * b[at + 2] as int + 0x100_0000 * b[at + 3] as int
    ensures var r := PutLe32(b, at, v);
            r[at] == v % 256 && r[at + 1] == v / 0x100 % 256 && r[at + 2] == v / 0x1_0000 % 256 && r[at + 3] == v / 0x100_0000
    ensures PutLe32(b, at, Le32(b, at)) == b
  {
    assert v / 256 / 256 == v / 0x1_0000 && v / 0x1_0000 / 256 == v / 0x100_0000 < 256;
    var r := PutLe32(b, at, Le32(b, at));
    LeRoundTrip(b, at, Le32(b, at));
    SameWord(r, b, at);
  }

  lemma SameWord(b: Block, c: Block, at: nat)
    requires at + 4 <= |b| == |c| && Le32(b, at) == Le32(c, at)
    requires forall k: nat | k < |b| && !(at <= k < at + 4) :: b[k] == c[k]
    ensures b == c
  {
    assert b[at] == c[at] && b[at + 1] == c[at + 1] && b[at + 2] == c[at + 2] && b[at + 3] == c[at + 3];
  }

  function Zero(size: nat): (b: Block)
    ensures |b| == size
  {
    seq(size, _ => 0)
  }

  // ---------------------------------------------------------------- pointers on the disk

  ghost predicate DiskOk(disk: Disk, size: nat)
  {
    size % 4 == 0 && forall b: nat | b < |disk| :: |disk[b]| == size
  }

  /** Word `i` of block `b`; 0 when the block cannot be read. */
  function Ptr(disk: Disk, b: nat, i: nat): nat
  {
    if b < |disk| && 4 * i + 4 <= |disk[b]| then Le32(disk[b], 4 * i) else 0
  }

  function Store(disk: Disk, b: nat, i: nat, v: nat): (r: Disk)
    requires b < |disk| && 4 * i + 4 <= |disk[b]| && v < U32
    ensures |r| == |disk|
  {
    disk[b := PutLe32(disk[b], 4 * i, v)]
  }

  lemma StoreChangesOneWord(disk: Disk, b: nat, i: nat, v: nat)
    requires b < |disk| && 4 * i + 4 <= |disk[b]| && v < U32
    ensures forall c: nat, j: nat :: Ptr(Store(disk, b, i, v), c, j) == if c == b && j == i then v else Ptr(disk, c, j)
  {
    LeRoundTrip(disk[b], 4 * i, v);
    forall c: nat, j: nat
      ensures Ptr(Store(disk, b, i, v), c, j) == if c == b && j == i then v else Ptr(disk, c, j)
    {
      if c == b && j != i && 4 * j + 4 <= |disk[b]| {
        assert forall k: nat | 4 * j <= k < 4 * j + 4 :: Store(disk, b, i, v)[b][k] == disk[b][k];
      }
    }
  }

  lemma ZeroHoldsNoPointer(disk: Disk, b: nat, size: nat)
    requires b < |disk|
    ensures forall c: nat, j: nat :: Ptr(disk[b := Zero(size)], c, j) == if c == b then 0 else Ptr(disk, c, j)
  {
    forall c: nat, j: nat
      ensures Ptr(disk[b := Zero(size)], c, j) == if c == b then 0 else Ptr(disk, c, j)
    {
      if c == b && 4 * j + 4 <= size {
        assert forall k: nat | k < size :: Zero(size)[k] == 0;
        assert Le32(Zero(size), 4 * j) == 0;
      }
    }
  }

  // ---------------------------------------------------------------- the tree

  /** The places of an inode's tree that hold a block number. */
  datatype Pos = Direct(i: nat) | InSingle(i: nat) | InDouble(k: nat, i: nat)
               | SingleRoot | DoubleRoot | L2Root(k: nat)

  predicate IsRoot(p: Pos)
  {
    p.SingleRoot? || p.DoubleRoot? || p.L2Root?
  }

  /** `n` is the number of pointers in an indirect block. */
  predicate InTree(p: Pos, n: nat)
  {
    match p
    case Direct(i) => i < 12
    case InSingle(i) => i < n
    case InDouble(k, i) => k < n && i < n
    case L2Root(k) => k < n
    case _ => true
  }

  /** The i_block array of an inode. */
  type Roots = s: seq<nat> | |s| == 15 witness seq(15, _ => 0)

  /** The block number at a place; 0 means there is none. */
  function At(roots: Roots, disk: Disk, p: Pos): nat
    requires p.Direct? ==> p.i < 12
  {
    match p
    case Direct(i) => roots[i]
    case SingleRoot => roots[12]
    case DoubleRoot => roots[13]
    case InSingle(i) => if roots[12] == 0 then 0 else Ptr(disk, roots[12], i)
    case L2Root(k) => L2(roots, disk, k)
    case InDouble(k, i) => if L2(roots, disk, k) == 0 then 0 else Ptr(disk, L2(roots, disk, k), i)
  }

  function L2(roots: Roots, disk: Disk, k: nat): nat
  {
    if roots[13] == 0 then 0 else Ptr(disk, roots[13], k)
  }

  /** Where logical block `idx` is kept; none past the double-indirect range. */
  function Place(idx: nat, n: nat): (p: Option<Pos>)
    ensures p.Some? ==> InTree(p.value, n) && !IsRoot(p.value)
  {
    if idx < 12 then Some(Direct(idx))
    else if idx - 12 < n then Some(InSingle(idx - 12))
    else if idx - 12 - n < n * n then
      Quotient(idx - 12 - n, n);
      Some(InDouble((idx - 12 - n) / n, (idx - 12 - n) % n))
    else None
  }

  lemma Quotient(x: nat, n: nat)
    requires x < n * n
    ensures n > 0 && x / n < n && x == (x / n) * n + x % n
  {
    assert n > 0;
    Monotone(n, x / n, n);
  }

  /** Two logical blocks never share a place. */
  lemma PlaceIsInjective(i: nat, j: nat, n: nat)
    requires Place(i, n).Some? && Place(i, n) == Place(j, n)
    ensures i == j
  {
    if Place(i, n).value.InDouble? {
      Quotient(i - 12 - n, n);
      Quotient(j - 12 - n, n);
    }
  }

  /** inode_get_block */
  function GetBlock(roots: Roots, disk: Disk, idx: nat, size: nat): nat
  {
    var n := size / 4;
    if idx < 12 then roots[idx]
    else
      var rel := idx - 12;
      if rel < n then
        if roots[12] == 0 then 0 else Ptr(disk, roots[12], rel)
      else
        var drel := rel - n;
        if drel < n * n then
          if roots[13] == 0 then 0
          else
            Quotient(drel, n);
            var l2 := Ptr(disk, roots[13], drel / n);
            if l2 == 0 then 0 else Ptr(disk, l2, drel % n)
        else 0
  }

  lemma GetBlockReadsThePlace(roots: Roots, disk: Disk, idx: nat, size: nat)
    ensures GetBlock(roots, disk, idx, size)
            == match Place(idx, size / 4) { case None => 0 case Some(p) => At(roots, disk, p) }
  {
  }

  // ---------------------------------------------------------------- ownership

  /** `owner` names the one place of each block the tree holds, and nothing else.  With `all`
      false only indirect blocks are covered. */
  ghost predicate Owns(roots: Roots, disk: Disk, n: nat, owner: map<nat, Pos>, all: bool)
  {
    && (forall p | InTree(p, n) && (all || IsRoot(p)) && At(roots, disk, p) != 0 ::
          At(roots, disk, p) in owner && owner[At(roots, disk, p)] == p)
    && (forall b | b in owner ::
          0 < b < |disk| && InTree(owner[b], n) && (all || IsRoot(owner[b])) && At(roots, disk, owner[b]) == b)
  }

  /** One place changes to `b` and no other place does. */
  ghost predicate Gains(before: Roots, disk: Disk, after: Roots, next: Disk, n: nat, place: Pos, b: nat)
  {
    forall p | InTree(p, n) :: At(after, next, p) == if p == place then b else At(before, disk, p)
  }

  lemma OwnsAfterGain(before: Roots, disk: Disk, after: Roots, next: Disk, n: nat, owner: map<nat, Pos>, all: bool,
                      place: Pos, b: nat)
    requires Owns(before, disk, n, owner, all) && InTree(place, n) && (all || IsRoot(place))
    requires Gains(before, disk, after, next, n, place, b)
    requires 0 < b < |disk| == |next| && b !in owner && At(before, disk, place) == 0
    ensures Owns(after, next, n, owner[b := place], all)
  {
  }

  /** Linking a fresh zeroed block as the single-indirect block. */
  lemma LinkSingle(roots: Roots, disk: Disk, size: nat, owner: map<nat, Pos>, all: bool, b: nat)
    requires DiskOk(disk, size) && Owns(roots, disk, size / 4, owner, all)
    requires roots[12] == 0 && 0 < b < |disk| && b !in owner
    ensures Gains(roots, disk, roots[12 := b], disk[b := Zero(size)], size / 4, SingleRoot, b)
  {
    OtherRootsKept(roots, disk, size, owner, all, b);
  }

  lemma LinkDouble(roots: Roots, disk: Disk, size: nat, owner: map<nat, Pos>, all: bool, b: nat)
    requires DiskOk(disk, size) && Owns(roots, disk, size / 4, owner, all)
    requires roots[13] == 0 && 0 < b < |disk| && b !in owner
    ensures Gains(roots, disk, roots[13 := b], disk[b := Zero(size)], size / 4, DoubleRoot, b)
  {
    OtherRootsKept(roots, disk, size, owner, all, b);
  }

  /** Zeroing a block the tree does not own changes no place. */
  /** A tree is known by the blocks it owns. */
  lemma SameTree(roots: Roots, disk: Disk, disk': Disk, size: nat, owner: map<nat, Pos>)
    requires Owns(roots, disk, size / 4, owner, true) && |disk'| == |disk| && forall c: nat | c in owner && c < |disk| :: disk'[c] == disk[c]
    ensures Owns(roots, disk', size / 4, owner, true)
    ensures forall j: nat :: GetBlock(roots, disk', j, size) == GetBlock(roots, disk, j, size)
  {
    forall p | InTree(p, size / 4)
      ensures At(roots, disk', p) == At(roots, disk, p)
    {
      SamePlace(roots, disk, disk', size / 4, owner, p);
    }
    forall j: nat
      ensures GetBlock(roots, disk', j, size) == GetBlock(roots, disk, j, size)
    {
      GetBlockReadsThePlace(roots, disk, j, size);
      GetBlockReadsThePlace(roots, disk', j, size);
    }
  }

  lemma SamePlace(roots: Roots, disk: Disk, disk': Disk, n: nat, owner: map<nat, Pos>, p: Pos)
    requires Owns(roots, disk, n, owner, true) && |disk'| == |disk| && forall c: nat | c in owner && c < |disk| :: disk'[c] == disk[c]
    requires InTree(p, n)
    ensures At(roots, disk', p) == At(roots, disk, p)
  {
    assert roots[12] == At(roots, disk, SingleRoot) && roots[13] == At(roots, disk, DoubleRoot);
    match p
    case InDouble(k, i) => assert L2(roots, disk, k) == At(roots, disk, L2Root(k));
    case _ =>
  }

  lemma OtherRootsKept(roots: Roots, disk: Disk, size: nat, owner: map<nat, Pos>, all: bool, b: nat)
    requires DiskOk(disk, size) && Owns(roots, disk, size / 4, owner, all) && b < |disk| && b !in owner
    ensures forall p | InTree(p, size / 4) :: At(roots, disk[b := Zero(size)], p) == At(roots, disk, p)
    ensures DiskOk(disk[b := Zero(size)], size)
  {
    ZeroHoldsNoPointer(disk, b, size);
    var next, n := disk[b := Zero(size)], size / 4;
    forall p | InTree(p, n)
      ensures At(roots, next, p) == At(roots, disk, p)
    {
      assert roots[12] == At(roots, disk, SingleRoot) && roots[13] == At(roots, disk, DoubleRoot);
      match p
      case InDouble(k, i) => assert L2(roots, disk, k) == At(roots, disk, L2Root(k));
      case _ =>
    }
  }

  /** Linking a fresh zeroed block into the double-indirect block. */
  lemma LinkL2(roots: Roots, disk: Disk, size: nat, owner: map<nat, Pos>, all: bool, k: nat, b: nat)
    requires DiskOk(disk, size) && Owns(roots, disk, size / 4, owner, all)
    requires 0 < roots[13] < |disk| && k < size / 4 && L2(roots, disk, k) == 0
    requires 0 < b < |disk| && b !in owner && b < U32
    ensures Gains(roots, disk, roots, Store(disk, roots[13], k, b)[b := Zero(size)], size / 4, L2Root(k), b)
  {
    var n, mid := size / 4, Store(disk, roots[13], k, b);
    StoreChangesOneWord(disk, roots[13], k, b);
    ZeroHoldsNoPointer(mid, b, size);
    assert roots[12] == At(roots, disk, SingleRoot) && roots[13] == At(roots, disk, DoubleRoot);
    forall p | InTree(p, n)
      ensures At(roots, mid[b := Zero(size)], p) == if p == L2Root(k) then b else At(roots, disk, p)
    {
      match p
      case InDouble(k', i) => assert L2(roots, disk, k') == At(roots, disk, L2Root(k'));
      case _ =>
    }
  }

  /** Storing a pointer in an indirect block changes that place only. */
  lemma StoreSingle(roots: Roots, disk: Disk, size: nat, owner: map<nat, Pos>, all: bool, i: nat, v: nat)
    requires DiskOk(disk, size) && Owns(roots, disk, size / 4, owner, all)
    requires 0 < roots[12] < |disk| && i < size / 4 && v < U32
    ensures Gains(roots, disk, roots, Store(disk, roots[12], i, v), size / 4, InSingle(i), v)
  {
    StoreChangesOneWord(disk, roots[12], i, v);
    assert roots[12] == At(roots, disk, SingleRoot) && roots[13] == At(roots, disk, DoubleRoot);
    forall p | InTree(p, size / 4)
      ensures At(roots, Store(disk, roots[12], i, v), p) == if p == InSingle(i) then v else At(roots, disk, p)
    {
      match p
      case InDouble(k, j) => assert L2(roots, disk, k) == At(roots, disk, L2Root(k));
      case _ =>
    }
  }

  lemma StoreDouble(roots: Roots, disk: Disk, size: nat, owner: map<nat, Pos>, all: bool, k: nat, i: nat, v: nat)
    requires DiskOk(disk, size) && Owns(roots, disk, size / 4, owner, all)
    requires k < size / 4 && i < size / 4 && v < U32 && 0 < L2(roots, disk, k) < |disk|
    ensures Gains(roots, disk, roots, Store(disk, L2(roots, disk, k), i, v), size / 4, InDouble(k, i), v)
  {
    var b := L2(roots, disk, k);
    StoreChangesOneWord(disk, b, i, v);
    assert b == At(roots, disk, L2Root(k));
    assert roots[12] == At(roots, disk, SingleRoot) && roots[13] == At(roots, disk, DoubleRoot);
    forall p | InTree(p, size / 4)
      ensures At(roots, Store(disk, b, i, v), p) == if p == InDouble(k, i) then v else At(roots, disk, p)
    {
      match p
      case InDouble(k', j) => assert L2(roots, disk, k') == At(roots, disk, L2Root(k'));
      case _ =>
    }
  }
}
