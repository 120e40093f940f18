/** A mounted ext2 volume (kernel/fs/ext2.c): block allocation and release, setting a block
    pointer of an inode, and releasing all the blocks of an inode. */
module Ext2Volume {
  import opened Options
  import opened Ext2Bitmap
  import opened Ext2Tree

  /** The non-zero numbers of a pointer array. */
  ghost function NonZero(words: seq<nat>): set<nat>
  {
    set w | w in words && w != 0
  }

  ghost predicate Distinct(words: seq<nat>)
  {
    forall i: nat, j: nat | i < j < |words| && words[i] != 0 :: words[i] != words[j]
  }

  lemma NonZeroGrows(words: seq<nat>, i: nat)
    requires i < |words| && Distinct(words)
    ensures NonZero(words[..i + 1]) == if words[i] == 0 then NonZero(words[..i]) else NonZero(words[..i]) + {words[i]}
    ensures words[i] !in NonZero(words[..i])
  {
    assert words[..i + 1] == words[..i] + [words[i]];
  }

  // ---------------------------------------------------------------- setting a pointer

  /** The tree's blocks are in use. */
  ghost predicate Tied(roots: Roots, disk: Disk, free: set<nat>, n: nat, owner: map<nat, Pos>, all: bool)
  {
    Owns(roots, disk, n, owner, all) && owner.Keys !! free
  }

  /** Indirect blocks were taken from the free set; no block but an indirect one was written. */
  ghost predicate Extends(owner: map<nat, Pos>, disk: Disk, free: set<nat>,
                          owner': map<nat, Pos>, disk': Disk, free': set<nat>)
  {
    && |disk'| == |disk| && free' == free - owner'.Keys
    && (forall b | b in owner :: b in owner' && owner'[b] == owner[b])
    && (forall b | b in owner' && b !in owner :: b in free && IsRoot(owner'[b]))
    && (forall c: nat | c < |disk| && !(c in owner' && IsRoot(owner'[c])) :: disk'[c] == disk[c])
  }

  /** No block of the tree was written, and at most a double-indirect block was added. */
  ghost predicate Untouched(owner: map<nat, Pos>, disk: Disk, owner': map<nat, Pos>, disk': Disk)
  {
    && |disk'| == |disk| && (forall c: nat | c in owner && c < |disk| :: disk'[c] == disk[c])
    && (forall b | b in owner' && b !in owner :: owner'[b] == DoubleRoot)
  }

  lemma ExtendsTwice(owner: map<nat, Pos>, disk: Disk, free: set<nat>, owner1: map<nat, Pos>, disk1: Disk, free1: set<nat>,
                     owner2: map<nat, Pos>, disk2: Disk, free2: set<nat>)
    requires Extends(owner, disk, free, owner1, disk1, free1) && Extends(owner1, disk1, free1, owner2, disk2, free2)
    ensures Extends(owner, disk, free, owner2, disk2, free2)
  {
    forall c: nat | c < |disk| && !(c in owner2 && IsRoot(owner2[c]))
      ensures disk2[c] == disk[c]
    {
      assert c in owner1 ==> c in owner2;
    }
  }

  /** Every logical block, and every indirect block that was there, stays where it was. */
  ghost predicate KeepsData(roots: Roots, disk: Disk, roots': Roots, disk': Disk, n: nat)
  {
    forall p | InTree(p, n) && (!IsRoot(p) || At(roots, disk, p) != 0) :: At(roots', disk', p) == At(roots, disk, p)
  }

  /** Taking one fresh block as an indirect block. */
  lemma LinkStep(roots: Roots, disk: Disk, free: set<nat>, n: nat, owner: map<nat, Pos>, all: bool,
                 roots': Roots, disk': Disk, place: Pos, b: nat)
    requires Tied(roots, disk, free, n, owner, all) && IsRoot(place) && InTree(place, n)
    requires Gains(roots, disk, roots', disk', n, place, b) && At(roots, disk, place) == 0
    requires 0 < b < |disk| == |disk'| && b in free
    requires forall c: nat | c < |disk| && c != b && !(c in owner && IsRoot(owner[c])) :: disk'[c] == disk[c]
    ensures Tied(roots', disk', free - {b}, n, owner[b := place], all)
    ensures Extends(owner, disk, free, owner[b := place], disk', free - {b})
    ensures KeepsData(roots, disk, roots', disk', n)
  {
    OwnsAfterGain(roots, disk, roots', disk', n, owner, all, place, b);
  }

  /** The block map of the inode after `b` was put at logical block `idx`, or unchanged. */
  ghost predicate SetsOneBlock(roots: Roots, disk: Disk, roots': Roots, disk': Disk, size: nat, ok: bool, idx: nat, b: nat)
  {
    forall j: nat :: GetBlock(roots', disk', j, size) == if ok && j == idx then b else GetBlock(roots, disk, j, size)
  }

  lemma DataFrame(roots: Roots, disk: Disk, roots': Roots, disk': Disk, size: nat, ok: bool, idx: nat, b: nat)
    requires ok ==> Place(idx, size / 4).Some?
    requires forall p | InTree(p, size / 4) && !IsRoot(p) ::
               At(roots', disk', p) == if ok && Some(p) == Place(idx, size / 4) then b else At(roots, disk, p)
    ensures SetsOneBlock(roots, disk, roots', disk', size, ok, idx, b)
  {
    forall j: nat
      ensures GetBlock(roots', disk', j, size) == if ok && j == idx then b else GetBlock(roots, disk, j, size)
    {
      GetBlockReadsThePlace(roots, disk, j, size);
      GetBlockReadsThePlace(roots', disk', j, size);
      if ok && Place(j, size / 4) == Place(idx, size / 4) { PlaceIsInjective(idx, j, size / 4); }
    }
  }

  /** Storing the block number itself: `b` joins the owned blocks when all of them are tracked. */
  lemma StoreStep(roots: Roots, disk: Disk, free: set<nat>, n: nat, owner: map<nat, Pos>, all: bool,
                  roots': Roots, disk': Disk, place: Pos, b: nat)
    requires Tied(roots, disk, free, n, owner, all) && !IsRoot(place) && InTree(place, n)
    requires Gains(roots, disk, roots', disk', n, place, b) && |disk'| == |disk|
    requires all ==> 0 < b < |disk| && b !in owner && b !in free && At(roots, disk, place) == 0
    ensures Tied(roots', disk', free, n, if all then owner[b := place] else owner, all)
  {
    if all { OwnsAfterGain(roots, disk, roots', disk', n, owner, all, place, b); }
  }

  // ---------------------------------------------------------------- releasing a tree

  /** The pointer array a place belongs to, named by its first place. */
  function Group(p: Pos): Pos
  {
    match p
    case Direct(_) => Direct(0)
    case InSingle(_) => InSingle(0)
    case InDouble(k, _) => InDouble(k, 0)
    case _ => p
  }

  function PlaceIn(g: Pos, i: nat): Pos
  {
    match g
    case Direct(_) => Direct(i)
    case InSingle(_) => InSingle(i)
    case InDouble(k, _) => InDouble(k, i)
    case _ => g
  }

  ghost function Part(owner: map<nat, Pos>, g: Pos): set<nat>
  {
    set b | b in owner && Group(owner[b]) == g
  }

  /** Halfway through the release: `done` is free again, by one call each. */
  ghost predicate Books(owner: map<nat, Pos>, was: set<nat>, free: set<nat>, done: set<nat>, calls: nat)
  {
    free == was + done && done <= owner.Keys && was !! owner.Keys && calls == |done|
  }

  /** The groups up to entry `k` of the double-indirect block are done, and no others. */
  ghost predicate Upto(owner: map<nat, Pos>, done: set<nat>, k: nat)
  {
    forall b :: b in done <==> b in owner && (Small(owner[b]) || Entry(owner[b], k))
  }

  /** `done'` is `done` and the blocks of one group. */
  ghost predicate Adds(owner: map<nat, Pos>, done: set<nat>, g: Pos, done': set<nat>)
  {
    forall b :: b in done' <==> b in done || (b in owner && Group(owner[b]) == g)
  }

  lemma BooksStep(owner: map<nat, Pos>, was: set<nat>, free: set<nat>, done: set<nat>, calls: nat, g: Pos)
    requires Books(owner, was, free, done, calls) && Part(owner, g) !! done
    ensures Books(owner, was, free + Part(owner, g), done + Part(owner, g), calls + |Part(owner, g)|)
    ensures Adds(owner, done, g, done + Part(owner, g)) && Part(owner, g) !! free
  {
  }

  lemma NotYetEntry(owner: map<nat, Pos>, done: set<nat>, k: nat)
    requires Upto(owner, done, k)
    ensures Part(owner, InDouble(k, 0)) !! done && Part(owner, L2Root(k)) !! done
  {
  }

  /** Releasing one group does not touch another. */
  lemma NotYetRoot(owner: map<nat, Pos>, done: set<nat>, done': set<nat>, g: Pos, other: Pos)
    requires Adds(owner, done, g, done') && Part(owner, other) !! done && g != other
    ensures Part(owner, other) !! done'
  {
  }

  lemma SmallDone(owner: map<nat, Pos>, a: set<nat>, b: set<nat>, c: set<nat>)
    requires Adds(owner, {}, Direct(0), a) && Adds(owner, a, InSingle(0), b) && Adds(owner, b, SingleRoot, c)
    ensures Upto(owner, c, 0)
  {
  }

  lemma EntryDone(owner: map<nat, Pos>, k: nat, a: set<nat>, b: set<nat>, c: set<nat>)
    requires Upto(owner, a, k) && Adds(owner, a, InDouble(k, 0), b) && Adds(owner, b, L2Root(k), c)
    ensures Upto(owner, c, k + 1)
  {
  }

  lemma RootLast(roots: Roots, disk: Disk, n: nat, owner: map<nat, Pos>, done: set<nat>)
    requires Upto(owner, done, n)
    ensures Lists(roots, disk, n, DoubleRoot, [roots[13]]) && Part(owner, DoubleRoot) !! done
  {
  }

  lemma AllDone(owner: map<nat, Pos>, n: nat, a: set<nat>, b: set<nat>)
    requires forall x | x in owner :: InTree(owner[x], n)
    requires Upto(owner, a, n) && Adds(owner, a, DoubleRoot, b)
    ensures b == owner.Keys
  {
  }

  /** Places outside the double-indirect tree. */
  predicate Small(p: Pos)
  {
    p.Direct? || p.InSingle? || p.SingleRoot?
  }

  /** Places under the first `k` entries of the double-indirect block. */
  predicate Entry(p: Pos, k: nat)
  {
    (p.InDouble? || p.L2Root?) && p.k < k
  }

  /** The pointers of an indirect block. */
  function Words(disk: Disk, b: nat, n: nat): seq<nat>
  {
    seq(n, i requires 0 <= i => Ptr(disk, b, i))
  }

  /** An array that holds the places of one group, in order. */
  ghost predicate Lists(roots: Roots, disk: Disk, n: nat, g: Pos, words: seq<nat>)
  {
    && (forall i: nat | i < |words| ::
          InTree(PlaceIn(g, i), n) && Group(PlaceIn(g, i)) == g && words[i] == At(roots, disk, PlaceIn(g, i)))
    && (forall p | InTree(p, n) && Group(p) == g && At(roots, disk, p) != 0 :: At(roots, disk, p) in words)
    && (|words| <= 1 || !IsRoot(g))
  }

  lemma ListedPart(roots: Roots, disk: Disk, n: nat, owner: map<nat, Pos>, g: Pos, words: seq<nat>)
    requires Owns(roots, disk, n, owner, true) && Lists(roots, disk, n, g, words)
    ensures Distinct(words) && NonZero(words) == Part(owner, g)
  {
    forall b | b in NonZero(words)
      ensures b in Part(owner, g)
    {
      var i: nat :| i < |words| && words[i] == b;
      assert At(roots, disk, PlaceIn(g, i)) == b;
    }
    forall i: nat, j: nat | i < j < |words| && words[i] != 0
      ensures words[i] != words[j]
    {
      assert owner[At(roots, disk, PlaceIn(g, i))] == PlaceIn(g, i) && PlaceIn(g, i) != PlaceIn(g, j);
    }
  }

  lemma SmallLists(roots: Roots, disk: Disk, n: nat)
    ensures Lists(roots, disk, n, Direct(0), roots[..12])
    ensures Lists(roots, disk, n, SingleRoot, [roots[12]])
    ensures Lists(roots, disk, n, InSingle(0), if roots[12] != 0 then Words(disk, roots[12], n) else [])
  {
    DirectWords(roots, disk, n);
    SingleWords(roots, disk, n, if roots[12] != 0 then Words(disk, roots[12], n) else []);
  }

  lemma DirectWords(roots: Roots, disk: Disk, n: nat)
    ensures Lists(roots, disk, n, Direct(0), roots[..12]) && Lists(roots, disk, n, SingleRoot, [roots[12]])
  {
  }

  lemma SingleWords(roots: Roots, disk: Disk, n: nat, words: seq<nat>)
    requires words == if roots[12] != 0 then Words(disk, roots[12], n) else []
    ensures Lists(roots, disk, n, InSingle(0), words)
  {
    forall p | InTree(p, n) && Group(p) == InSingle(0) && At(roots, disk, p) != 0
      ensures At(roots, disk, p) in words
    {
      assert words[p.i] == At(roots, disk, p);
    }
  }

  lemma EntryLists(roots: Roots, disk: Disk, n: nat, k: nat)
    requires k < n
    ensures var l2 := L2(roots, disk, k);
            && Lists(roots, disk, n, InDouble(k, 0), if l2 != 0 then Words(disk, l2, n) else [])
            && Lists(roots, disk, n, L2Root(k), [l2])
  {
    var l2 := L2(roots, disk, k);
    EntryWords(roots, disk, n, k, l2, if l2 != 0 then Words(disk, l2, n) else []);
  }

  lemma EntryWords(roots: Roots, disk: Disk, n: nat, k: nat, l2: nat, words: seq<nat>)
    requires k < n && l2 == L2(roots, disk, k) && words == if l2 != 0 then Words(disk, l2, n) else []
    ensures Lists(roots, disk, n, InDouble(k, 0), words)
  {
    forall p | InTree(p, n) && Group(p) == InDouble(k, 0) && At(roots, disk, p) != 0
      ensures At(roots, disk, p) in words
    {
      EntryWord(roots, disk, n, k, l2, words, p);
    }
    forall i: nat | i < |words|
      ensures words[i] == At(roots, disk, InDouble(k, i))
    {
      assert words[i] == Ptr(disk, l2, i);
    }
  }

  lemma EntryWord(roots: Roots, disk: Disk, n: nat, k: nat, l2: nat, words: seq<nat>, p: Pos)
    requires k < n && l2 == L2(roots, disk, k) && words == if l2 != 0 then Words(disk, l2, n) else []
    requires InTree(p, n) && Group(p) == InDouble(k, 0) && At(roots, disk, p) != 0
    ensures At(roots, disk, p) in words
  {
    assert p == InDouble(k, p.i);
    assert words[p.i] == Ptr(disk, l2, p.i);
  }

  /** The i_block array once every pointer the code handles is zeroed. */
  function Cleared(roots: Roots): Roots
  {
    seq(14, _ => 0) + roots[14..]
  }

  class Volume {
    const size: nat
    var blocks: BlockMap
    var disk: Disk
    /** The free blocks, as the bitmaps say. */
    ghost var free: set<nat>

    /** The first data block of an ext2 volume is 0 or 1, and block 0 is never free. */
    ghost predicate Valid()
      reads this
    {
      && MapOk(blocks) && Matches(blocks, free) && blocks.first <= 1 && 0 !in free
      && (size == 1024 || size == 2048 || size == 4096) && DiskOk(disk, size) && |disk| == Total(blocks) < U32
    }

    /** alloc_block: the lowest free block, or 0 when every bitmap is full. */
    method AllocBlock() returns (r: nat)
      requires Valid()
      modifies this`blocks, this`free
      ensures Valid() && blocks.first == old(blocks.first)
      ensures r == 0 <==> old(free) == {}
      ensures free == old(free) - {r}
      ensures r != 0 ==> r in old(free) && r < |disk|
      ensures forall b | b in old(free) :: r <= b
    {
      var g := 0;
      while g < |blocks.bits|
        invariant 0 <= g <= |blocks.bits| && blocks == old(blocks) && free == old(free)
        invariant forall h: nat | h < g :: blocks.counts[h] == 0
      {
        if blocks.counts[g] != 0 {
          var bit := FindFree(blocks.bits[g]);
          NoZeros(blocks.bits[g]);
          LowestFree(blocks, free, g, bit);
          PutChangesOneBlock(blocks, free, g, bit, true);
          r := g * blocks.perGroup + bit + blocks.first;
          assert r == BlockAt(blocks, g, bit);
          blocks, free := Put(blocks, g, bit, true), free - {r};
          return;
        }
        g := g + 1;
      }
      FullIff(blocks, free);
      r := 0;
    }

    /** free_block: only a set bit is cleared and counted. */
    method FreeBlock(b: nat)
      requires Valid()
      modifies this`blocks, this`free
      ensures Valid() && blocks.first == old(blocks.first)
      ensures free == old(free) + if 0 < b < |disk| then {b} else {}
    {
      if b == 0 { return; }
      var rel := if b >= blocks.first then b - blocks.first else b;
      var g, bit := rel / blocks.perGroup, rel % blocks.perGroup;
      GroupOf(blocks, rel);
      if g >= |blocks.bits| { return; }
      assert b == BlockAt(blocks, g, bit);
      if blocks.bits[g][bit] {
        PutChangesOneBlock(blocks, free, g, bit, false);
        blocks, free := Put(blocks, g, bit, false), free + {b};
      }
    }

    /** The single-indirect block is there, or is allocated and zeroed. */
    method EnsureSingle(roots: Roots, ghost owner: map<nat, Pos>, ghost all: bool)
      returns (ok: bool, roots': Roots, ghost owner': map<nat, Pos>)
      requires Valid() && Tied(roots, disk, free, size / 4, owner, all)
      modifies this
      ensures Valid() && Tied(roots', disk, free, size / 4, owner', all)
      ensures Extends(owner, old(disk), old(free), owner', disk, free)
      ensures KeepsData(roots, old(disk), roots', disk, size / 4)
      ensures if ok then roots'[12] != 0 else old(free) == {} && owner' == owner && disk == old(disk)
    {
      roots', owner' := roots, owner;
      if roots[12] == 0 {
        var b := AllocBlock();
        if b == 0 { return false, roots', owner'; }
        LinkSingle(roots, disk, size, owner, all, b);
        roots' := roots[12 := b];
        disk := disk[b := Zero(size)];
        LinkStep(roots, old(disk), old(free), size / 4, owner, all, roots', disk, SingleRoot, b);
        owner' := owner[b := SingleRoot];
      }
      ok := true;
    }

    method EnsureDouble(roots: Roots, ghost owner: map<nat, Pos>, ghost all: bool)
      returns (ok: bool, roots': Roots, ghost owner': map<nat, Pos>)
      requires Valid() && Tied(roots, disk, free, size / 4, owner, all)
      modifies this
      ensures Valid() && Tied(roots', disk, free, size / 4, owner', all)
      ensures Extends(owner, old(disk), old(free), owner', disk, free)
      ensures KeepsData(roots, old(disk), roots', disk, size / 4)
      ensures (if ok then roots'[13] != 0 else old(free) == {}) && Untouched(owner, old(disk), owner', disk)
    {
      roots', owner' := roots, owner;
      if roots[13] == 0 {
        var b := AllocBlock();
        if b == 0 { return false, roots', owner'; }
        LinkDouble(roots, disk, size, owner, all, b);
        roots' := roots[13 := b];
        disk := disk[b := Zero(size)];
        LinkStep(roots, old(disk), old(free), size / 4, owner, all, roots', disk, DoubleRoot, b);
        owner' := owner[b := DoubleRoot];
      }
      ok := true;
    }

    /** Entry `k` of the double-indirect block is there, or is allocated, linked and zeroed. */
    method EnsureL2(roots: Roots, k: nat, ghost owner: map<nat, Pos>, ghost all: bool)
      returns (ok: bool, ghost owner': map<nat, Pos>)
      requires Valid() && Tied(roots, disk, free, size / 4, owner, all)
      requires roots[13] != 0 && k < size / 4
      modifies this
      ensures Valid() && Tied(roots, disk, free, size / 4, owner', all)
      ensures Extends(owner, old(disk), old(free), owner', disk, free)
      ensures KeepsData(roots, old(disk), roots, disk, size / 4)
      ensures if ok then L2(roots, disk, k) != 0 else old(free) == {} && owner' == owner && disk == old(disk)
    {
      owner' := owner;
      assert roots[13] == At(roots, disk, DoubleRoot) && L2(roots, disk, k) == At(roots, disk, L2Root(k));
      if Ptr(disk, roots[13], k) == 0 {
        var b := AllocBlock();
        if b == 0 { return false, owner'; }
        LinkL2(roots, disk, size, owner, all, k, b);
        disk := Store(disk, roots[13], k, b);
        disk := disk[b := Zero(size)];
        LinkStep(roots, old(disk), old(free), size / 4, owner, all, roots, disk, L2Root(k), b);
        owner' := owner[b := L2Root(k)];
      }
      ok := true;
    }

    /** inode_set_block.  With `all` the caller hands in a block that is in use and not yet part
        of the tree, for a logical block that is a hole. */
    method SetBlock(roots: Roots, idx: nat, b: nat, ghost owner: map<nat, Pos>, ghost all: bool)
      returns (ok: bool, roots': Roots, ghost owner': map<nat, Pos>)
      requires Valid() && Tied(roots, disk, free, size / 4, owner, all) && b < U32
      requires all ==> 0 < b < |disk| && b !in owner && b !in free && GetBlock(roots, disk, idx, size) == 0
      modifies this
      ensures Valid()
      ensures ok ==> Place(idx, size / 4).Some?
      ensures !ok ==> (Place(idx, size / 4).None? || free == {}) && Untouched(owner, old(disk), owner', disk)
      ensures SetsOneBlock(roots, old(disk), roots', disk, size, ok, idx, b)
      ensures Extends(owner, old(disk), old(free), owner', disk, free)
      ensures Tied(roots', disk, free, size / 4,
                   if ok && all then owner'[b := Place(idx, size / 4).value] else owner', all)
    {
      var n := size / 4;
      GetBlockReadsThePlace(roots, disk, idx, size);
      ghost var disk0 := disk;
      if idx < 12 {
        ok, roots', owner' := StoreInDirect(roots, idx, b, owner, all);
      } else if idx - 12 < n {
        ok, roots', owner' := StoreInSingle(roots, idx - 12, b, owner, all);
      } else if idx - 12 - n < n * n {
        Quotient(idx - 12 - n, n);
        ok, roots', owner' := StoreInDouble(roots, (idx - 12 - n) / n, (idx - 12 - n) % n, b, owner, all);
      } else {
        ok, roots', owner' := false, roots, owner;
      }
      DataFrame(roots, disk0, roots', disk, size, ok, idx, b);
    }

    method StoreInDirect(roots: Roots, i: nat, b: nat, ghost owner: map<nat, Pos>, ghost all: bool)
      returns (ok: bool, roots': Roots, ghost owner': map<nat, Pos>)
      requires Valid() && Tied(roots, disk, free, size / 4, owner, all) && i < 12
      requires all ==> 0 < b < |disk| && b !in owner && b !in free && At(roots, disk, Direct(i)) == 0
      ensures ok && owner' == owner
      ensures forall p | InTree(p, size / 4) && !IsRoot(p) :: At(roots', disk, p) == if p == Direct(i) then b else At(roots, disk, p)
      ensures Extends(owner, disk, free, owner', disk, free)
      ensures Tied(roots', disk, free, size / 4, if all then owner'[b := Direct(i)] else owner', all)
    {
      ok, roots', owner' := true, roots[i := b], owner;
      StoreStep(roots, disk, free, size / 4, owner, all, roots', disk, Direct(i), b);
    }

    method StoreInSingle(roots: Roots, i: nat, b: nat, ghost owner: map<nat, Pos>, ghost all: bool)
      returns (ok: bool, roots': Roots, ghost owner': map<nat, Pos>)
      requires Valid() && Tied(roots, disk, free, size / 4, owner, all) && i < size / 4 && b < U32
      requires all ==> 0 < b < |disk| && b !in owner && b !in free && At(roots, disk, InSingle(i)) == 0
      modifies this
      ensures Valid() && (ok || (free == {} && Untouched(owner, old(disk), owner', disk)))
      ensures forall p | InTree(p, size / 4) && !IsRoot(p) ::
                At(roots', disk, p) == if ok && p == InSingle(i) then b else At(roots, old(disk), p)
      ensures Extends(owner, old(disk), old(free), owner', disk, free)
      ensures Tied(roots', disk, free, size / 4, if ok && all then owner'[b := InSingle(i)] else owner', all)
    {
      ok, roots', owner' := EnsureSingle(roots, owner, all);
      if !ok { return; }
      ghost var mid := disk;
      assert roots'[12] == At(roots', disk, SingleRoot);
      StoreSingle(roots', disk, size, owner', all, i, b);
      disk := Store(disk, roots'[12], i, b);
      StoreStep(roots', mid, free, size / 4, owner', all, roots', disk, InSingle(i), b);
    }

    /** Both levels above the pointers of entry `k`. */
    method EnsurePath(roots: Roots, k: nat, ghost owner: map<nat, Pos>, ghost all: bool)
      returns (ok: bool, roots': Roots, ghost owner': map<nat, Pos>)
      requires Valid() && Tied(roots, disk, free, size / 4, owner, all) && k < size / 4
      modifies this
      ensures Valid() && Tied(roots', disk, free, size / 4, owner', all)
      ensures Extends(owner, old(disk), old(free), owner', disk, free)
      ensures KeepsData(roots, old(disk), roots', disk, size / 4)
      ensures if ok then L2(roots', disk, k) != 0 else free == {} && Untouched(owner, old(disk), owner', disk)
    {
      ok, roots', owner' := EnsureDouble(roots, owner, all);
      if !ok { return; }
      ghost var owner1, disk1, free1 := owner', disk, free;
      ok, owner' := EnsureL2(roots', k, owner1, all);
      ExtendsTwice(owner, old(disk), old(free), owner1, disk1, free1, owner', disk, free);
    }

    method StoreInDouble(roots: Roots, k: nat, i: nat, b: nat, ghost owner: map<nat, Pos>, ghost all: bool)
      returns (ok: bool, roots': Roots, ghost owner': map<nat, Pos>)
      requires Valid() && Tied(roots, disk, free, size / 4, owner, all) && k < size / 4 && i < size / 4 && b < U32
      requires all ==> 0 < b < |disk| && b !in owner && b !in free && At(roots, disk, InDouble(k, i)) == 0
      modifies this
      ensures Valid() && (ok || (free == {} && Untouched(owner, old(disk), owner', disk)))
      ensures forall p | InTree(p, size / 4) && !IsRoot(p) ::
                At(roots', disk, p) == if ok && p == InDouble(k, i) then b else At(roots, old(disk), p)
      ensures Extends(owner, old(disk), old(free), owner', disk, free)
      ensures Tied(roots', disk, free, size / 4, if ok && all then owner'[b := InDouble(k, i)] else owner', all)
    {
      ok, roots', owner' := EnsurePath(roots, k, owner, all);
      if !ok { return; }
      ghost var mid := disk;
      var l2 := Ptr(disk, roots'[13], k);
      assert l2 == At(roots', disk, L2Root(k));
      StoreDouble(roots', disk, size, owner', all, k, i, b);
      disk := Store(disk, l2, i, b);
      StoreStep(roots', mid, free, size / 4, owner', all, roots', disk, InDouble(k, i), b);
    }

    /** The loop over one array of block pointers in free_inode_blocks. */
    method ReleaseWords(words: seq<nat>) returns (calls: nat)
      requires Valid() && Distinct(words)
      requires forall w | w in NonZero(words) :: w < |disk| && w !in free
      modifies this`blocks, this`free
      ensures Valid() && free == old(free) + NonZero(words)
      ensures calls == |NonZero(words)|
    {
      calls := 0;
      var i: nat := 0;
      ghost var was, done: set<nat> := free, {};
      while i < |words|
        invariant i <= |words| && Valid() && free == was + done
        invariant done == NonZero(words[..i]) && calls == |done|
      {
        NonZeroGrows(words, i);
        if words[i] != 0 {
          assert words[i] in NonZero(words);
          FreeBlock(words[i]);
          calls, done := calls + 1, done + {words[i]};
        }
        i := i + 1;
      }
      assert words[..i] == words;
    }

    /** One array of pointers, released as one group. */
    method ReleaseGroup(words: seq<nat>, roots: Roots, ghost owner: map<nat, Pos>, ghost g: Pos,
                        ghost was: set<nat>, ghost done: set<nat>, calls: nat) returns (calls': nat, ghost done': set<nat>)
      requires Valid() && Owns(roots, disk, size / 4, owner, true) && Lists(roots, disk, size / 4, g, words)
      requires Books(owner, was, free, done, calls) && Part(owner, g) !! done
      modifies this`blocks, this`free
      ensures Valid() && Books(owner, was, free, done', calls') && Adds(owner, done, g, done')
    {
      ListedPart(roots, disk, size / 4, owner, g, words);
      BooksStep(owner, was, free, done, calls, g);
      var c := ReleaseWords(words);
      calls', done' := calls + c, done + Part(owner, g);
    }

    /** The direct blocks and the single-indirect tree. */
    method ReleaseSmall(roots: Roots, ghost owner: map<nat, Pos>) returns (calls: nat, ghost done: set<nat>)
      requires Valid() && Tied(roots, disk, free, size / 4, owner, true)
      modifies this`blocks, this`free
      ensures Valid() && Books(owner, old(free), free, done, calls) && Upto(owner, done, 0)
    {
      var n := size / 4;
      ghost var was := free;
      SmallLists(roots, disk, n);
      calls, done := ReleaseGroup(roots[..12], roots, owner, Direct(0), was, {}, 0);
      ghost var a, b := done, done;
      if roots[12] != 0 {
        NotYetRoot(owner, {}, a, Direct(0), InSingle(0));
        NotYetRoot(owner, {}, a, Direct(0), SingleRoot);
        calls, b := ReleaseGroup(Words(disk, roots[12], n), roots, owner, InSingle(0), was, a, calls);
        NotYetRoot(owner, a, b, InSingle(0), SingleRoot);
        calls, done := ReleaseGroup([roots[12]], roots, owner, SingleRoot, was, b, calls);
      } else {
        NoneListed(roots, disk, n, owner, InSingle(0), [], a);
        NoneListed(roots, disk, n, owner, SingleRoot, [0], a);
      }
      SmallDone(owner, a, b, done);
    }

    /** One entry of the double-indirect block and the pointers under it. */
    method ReleaseEntry(roots: Roots, k: nat, ghost owner: map<nat, Pos>, ghost was: set<nat>, ghost done: set<nat>, calls: nat)
      returns (calls': nat, ghost done': set<nat>)
      requires Valid() && Owns(roots, disk, size / 4, owner, true) && roots[13] != 0 && k < size / 4
      requires Books(owner, was, free, done, calls) && Upto(owner, done, k)
      modifies this`blocks, this`free
      ensures Valid() && Books(owner, was, free, done', calls') && Upto(owner, done', k + 1)
    {
      var n := size / 4;
      EntryLists(roots, disk, n, k);
      var l2 := Ptr(disk, roots[13], k);
      calls', done' := calls, done;
      ghost var b := done;
      if l2 != 0 {
        NotYetEntry(owner, done, k);
        calls', b := ReleaseGroup(Words(disk, l2, n), roots, owner, InDouble(k, 0), was, done, calls);
        NotYetRoot(owner, done, b, InDouble(k, 0), L2Root(k));
        calls', done' := ReleaseGroup([l2], roots, owner, L2Root(k), was, b, calls');
      } else {
        NoneListed(roots, disk, n, owner, InDouble(k, 0), [], done);
        NoneListed(roots, disk, n, owner, L2Root(k), [0], done);
      }
      EntryDone(owner, k, done, b, done');
    }

    /** The entries of the double-indirect block. */
    method ReleaseEntries(roots: Roots, ghost owner: map<nat, Pos>, ghost was: set<nat>, ghost done: set<nat>, calls: nat)
      returns (calls': nat, ghost done': set<nat>)
      requires Valid() && Owns(roots, disk, size / 4, owner, true) && roots[13] != 0
      requires Books(owner, was, free, done, calls) && Upto(owner, done, 0)
      modifies this`blocks, this`free
      ensures Valid() && Books(owner, was, free, done', calls') && Upto(owner, done', size / 4)
    {
      var k: nat := 0;
      calls', done' := calls, done;
      while k < size / 4
        invariant k <= size / 4 && Valid() && Books(owner, was, free, done', calls') && Upto(owner, done', k)
      {
        calls', done' := ReleaseEntry(roots, k, owner, was, done', calls');
        k := k + 1;
      }
    }

    /** The double-indirect tree. */
    method ReleaseDouble(roots: Roots, ghost owner: map<nat, Pos>, ghost was: set<nat>, ghost done: set<nat>, calls: nat)
      returns (calls': nat, ghost done': set<nat>)
      requires Valid() && Owns(roots, disk, size / 4, owner, true) && roots[13] != 0
      requires Books(owner, was, free, done, calls) && Upto(owner, done, 0)
      modifies this`blocks, this`free
      ensures Valid() && Books(owner, was, free, done', calls') && done' == owner.Keys
    {
      var c;
      ghost var a;
      c, a := ReleaseEntries(roots, owner, was, done, calls);
      RootLast(roots, disk, size / 4, owner, a);
      calls', done' := ReleaseGroup([roots[13]], roots, owner, DoubleRoot, was, a, c);
      AllDone(owner, size / 4, a, done');
    }

    /** free_inode_blocks: every block of the tree becomes free, by one release each. */
    method FreeInodeBlocks(roots: Roots, ghost owner: map<nat, Pos>) returns (roots': Roots, calls: nat)
      requires Valid() && Tied(roots, disk, free, size / 4, owner, true)
      modifies this`blocks, this`free
      ensures Valid() && free == old(free) + owner.Keys && calls == |owner.Keys|
      ensures (forall i: nat | i < 14 :: roots'[i] == 0) && roots'[14] == roots[14]
      ensures forall j: nat :: GetBlock(roots', disk, j, size) == 0
      ensures Tied(roots', disk, free, size / 4, map[], true)
    {
      ghost var was, done := free, {};
      calls, done := ReleaseSmall(roots, owner);
      if roots[13] != 0 {
        calls, done := ReleaseDouble(roots, owner, was, done, calls);
      } else {
        NothingDouble(roots, disk, size / 4, owner, done);
      }
      roots' := Cleared(roots);
      ClearedIsEmpty(roots', disk, size);
    }
  }

  /** Without its first fourteen pointers an inode has no blocks, and its tree can be built anew. */
  lemma ClearedIsEmpty(roots: Roots, disk: Disk, size: nat)
    requires forall i: nat | i < 14 :: roots[i] == 0
    ensures Owns(roots, disk, size / 4, map[], true) && forall j: nat :: GetBlock(roots, disk, j, size) == 0
  {
    forall p | InTree(p, size / 4)
      ensures At(roots, disk, p) == 0
    {
    }
    forall j: nat
      ensures GetBlock(roots, disk, j, size) == 0
    {
      GetBlockReadsThePlace(roots, disk, j, size);
    }
  }

  lemma NoneListed(roots: Roots, disk: Disk, n: nat, owner: map<nat, Pos>, g: Pos, words: seq<nat>, done: set<nat>)
    requires Owns(roots, disk, n, owner, true) && Lists(roots, disk, n, g, words) && forall w | w in words :: w == 0
    ensures Adds(owner, done, g, done)
  {
  }

  lemma NothingDouble(roots: Roots, disk: Disk, n: nat, owner: map<nat, Pos>, done: set<nat>)
    requires Owns(roots, disk, n, owner, true) && roots[13] == 0 && Upto(owner, done, 0)
    ensures done == owner.Keys
  {
    forall b | b in owner
      ensures Small(owner[b])
    {
      assert At(roots, disk, owner[b]) == b;
    }
  }
}
