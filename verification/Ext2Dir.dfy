/** ext2 directories (kernel/fs/ext2.c, dir_lookup, dir_add_entry, dir_remove_entry): blocks of
    records that refine a map from names to inodes. */
module Ext2Dir {
  import opened Ext2Tree
  import opened Ext2Volume
  import opened Ext2Bytes
  import opened Ext2File
  import opened Ext2Entries
  import opened Ext2Dirent

  ghost predicate AllTile(blocks: seq<Block>, size: nat)
  {
    forall i: nat | i < |blocks| :: |blocks[i]| == size && Tiles(blocks[i])
  }

  ghost function Lives(blocks: seq<Block>, size: nat): (parts: seq<seq<Entry>>)
    requires AllTile(blocks, size)
    ensures |parts| == |blocks| && forall i: nat | i < |blocks| :: parts[i] == Live(blocks[i])
  {
    if blocks == [] then [] else Lives(blocks[..|blocks| - 1], size) + [Live(blocks[|blocks| - 1])]
  }

  /** The live entries of all blocks, in the order a lookup meets them. */
  ghost function Entries(blocks: seq<Block>, size: nat): seq<Entry>
    requires AllTile(blocks, size)
  {
    Flat(Lives(blocks, size))
  }

  lemma LivesUpdate(blocks: seq<Block>, size: nat, k: nat, b: Block)
    requires AllTile(blocks, size) && k < |blocks| && |b| == size && Tiles(b)
    ensures AllTile(blocks[k := b], size) && Lives(blocks[k := b], size) == Lives(blocks, size)[k := Live(b)]
  {
  }

  lemma LivesGrow(blocks: seq<Block>, size: nat, b: Block)
    requires AllTile(blocks, size) && |b| == size && Tiles(b)
    ensures AllTile(blocks + [b], size) && Lives(blocks + [b], size) == Lives(blocks, size) + [Live(b)]
  {
  }

  /** An entry added in one block. */
  lemma RoomTaken(blocks: seq<Block>, size: nat, k: nat, block: Block, e: Entry)
    requires AllTile(blocks, size) && Names(Entries(blocks, size)) && k < |blocks| && |block| == size && Tiles(block)
    requires Inserted(Live(blocks[k]), Live(block), e) && e.ino != 0 && Find(Entries(blocks, size), e.name) == 0
    ensures AllTile(blocks[k := block], size) && Gained(Entries(blocks, size), Entries(blocks[k := block], size), e.name, e.ino, e.kind)
  {
    AddedIn(Lives(blocks, size), k, Live(block), e);
    LivesUpdate(blocks, size, k, block);
  }

  /** A block added with one entry. */
  lemma BlockAdded(blocks: seq<Block>, size: nat, block: Block, e: Entry)
    requires AllTile(blocks, size) && Names(Entries(blocks, size)) && |block| == size && Tiles(block) && Live(block) == [e]
    requires e.ino != 0 && Find(Entries(blocks, size), e.name) == 0
    ensures AllTile(blocks + [block], size) && Gained(Entries(blocks, size), Entries(blocks + [block], size), e.name, e.ino, e.kind)
  {
    Appended(Lives(blocks, size), e);
    LivesGrow(blocks, size, block);
  }

  /** An entry removed from one block. */
  lemma EntryGone(blocks: seq<Block>, size: nat, k: nat, block: Block, name: seq<Byte>)
    requires AllTile(blocks, size) && Names(Entries(blocks, size)) && k < |blocks| && |block| == size && Tiles(block)
    requires Removed(Live(blocks[k]), Live(block), name) && Absent(Flat(Lives(blocks, size)[..k]), name)
    ensures AllTile(blocks[k := block], size) && Gained(Entries(blocks, size), Entries(blocks[k := block], size), name, 0, 0)
  {
    RemovedIn(Lives(blocks, size), k, Live(block), name);
    LivesUpdate(blocks, size, k, block);
  }

  // ---------------------------------------------------------------- searching blocks

  /** The first block and record that hold the name. */
  method Search(blocks: seq<Block>, size: nat, name: seq<Byte>) returns (k: nat, off: nat)
    requires AllTile(blocks, size) && Names(Entries(blocks, size)) && |name| <= 255
    ensures k <= |blocks|
    ensures k == |blocks| ==> Find(Entries(blocks, size), name) == 0
    ensures k < |blocks| ==> off < |blocks[k]| && StandsAt(blocks[k], off) && Ino(blocks[k][off..]) != 0 && Name(blocks[k][off..]) == name
                             && Absent(Live(blocks[k][..off]), name) && Absent(Flat(Lives(blocks, size)[..k]), name)
                             && Find(Entries(blocks, size), name) == Ino(blocks[k][off..])
  {
    k, off := 0, 0;
    ghost var parts := Lives(blocks, size);
    while k < |blocks|
      invariant k <= |blocks| && Absent(Flat(parts[..k]), name)
    {
      var found;
      found, off := FindInBlock(blocks[k], name);
      if found {
        var pre, e, post := LiveHit(blocks[k], off);
        FirstHit(parts, k, pre, e, post);
        return;
      }
      assert parts[..k + 1][..k] == parts[..k];
      k := k + 1;
    }
    assert parts[..k] == parts;
    FindNone(Flat(parts), name);
  }

  ghost predicate NoRoom(blocks: seq<Block>, len: nat)
    requires forall i: nat | i < |blocks| :: Tiles(blocks[i])
  {
    forall i: nat | i < |blocks| :: !HasRoom(blocks[i], len)
  }

  /** The first block with room, with the entry added to it. */
  method FirstRoom(blocks: seq<Block>, size: nat, name: seq<Byte>, child: nat, fileType: Byte) returns (k: nat, block: Block)
    requires AllTile(blocks, size) && size <= 4096 && |name| <= 255 && 0 < child < U32
    ensures k <= |blocks| && (k == |blocks| ==> NoRoom(blocks, Align4(8 + |name|)))
    ensures k < |blocks| ==> |block| == size && Tiles(block) && Inserted(Live(blocks[k]), Live(block), Entry(name, child, fileType))
  {
    k, block := 0, [];
    while k < |blocks|
      invariant k <= |blocks| && forall i: nat | i < k :: !HasRoom(blocks[i], Align4(8 + |name|))
    {
      var done;
      done, block := AddInBlock(blocks[k], child, fileType, name);
      if done { return; }
      k := k + 1;
    }
  }

  // ---------------------------------------------------------------- blocks on the volume

  /** The block numbers of the first `count` logical blocks. */
  function Numbers(roots: Roots, disk: Disk, size: nat, count: nat): (nums: seq<nat>)
    ensures |nums| == count
  {
    seq(count, i requires 0 <= i => GetBlock(roots, disk, i, size))
  }

  ghost predicate OnDisk(nums: seq<nat>, disk: Disk)
  {
    forall i: nat | i < |nums| :: 0 < nums[i] < |disk|
  }

  function Images(nums: seq<nat>, disk: Disk): (blocks: seq<Block>)
    requires OnDisk(nums, disk)
    ensures |blocks| == |nums|
  {
    seq(|nums|, i requires 0 <= i < |nums| => disk[nums[i]])
  }

  /** There are no blocks from `count` on. */
  ghost predicate EndsAt(roots: Roots, disk: Disk, size: nat, count: nat)
  {
    forall i: nat | i >= count :: GetBlock(roots, disk, i, size) == 0
  }

  lemma NumberAt(roots: Roots, disk: Disk, size: nat, count: nat, i: nat)
    requires i < count
    ensures Numbers(roots, disk, size, count)[i] == GetBlock(roots, disk, i, size)
  {
  }

  lemma SameNumbers(roots: Roots, disk: Disk, roots': Roots, disk': Disk, size: nat, count: nat)
    requires forall j: nat | j < count :: GetBlock(roots', disk', j, size) == GetBlock(roots, disk, j, size)
    ensures Numbers(roots', disk', size, count) == Numbers(roots, disk, size, count)
  {
    forall i: nat | i < count
      ensures Numbers(roots', disk', size, count)[i] == Numbers(roots, disk, size, count)[i]
    {
      NumberAt(roots, disk, size, count, i);
      NumberAt(roots', disk', size, count, i);
    }
  }

  lemma EndKept(roots: Roots, disk: Disk, disk': Disk, size: nat, count: nat)
    requires EndsAt(roots, disk, size, count)
    requires forall j: nat :: GetBlock(roots, disk', j, size) == GetBlock(roots, disk, j, size)
    ensures EndsAt(roots, disk', size, count)
  {
  }

  lemma MoreNumbers(roots: Roots, disk: Disk, size: nat, count: nat)
    ensures Numbers(roots, disk, size, count + 1) == Numbers(roots, disk, size, count) + [GetBlock(roots, disk, count, size)]
  {
  }

  /** The same bytes in the same logical blocks are the same images. */
  lemma SameImages(roots: Roots, disk: Disk, roots': Roots, disk': Disk, size: nat, count: nat, nums: seq<nat>)
    requires DiskOk(disk, size) && DiskOk(disk', size) && PutCells(roots, disk, roots', disk', size, count, 0, [])
    requires nums == Numbers(roots, disk, size, count) == Numbers(roots', disk', size, count) && OnDisk(nums, disk) && OnDisk(nums, disk')
    ensures Images(nums, disk') == Images(nums, disk)
  {
    forall i: nat | i < count
      ensures disk'[nums[i]] == disk[nums[i]]
    {
      NumberAt(roots, disk, size, count, i);
      NumberAt(roots', disk', size, count, i);
      SameImage(roots, disk, roots', disk', size, count, i, nums[i]);
    }
  }

  lemma SameImage(roots: Roots, disk: Disk, roots': Roots, disk': Disk, size: nat, idx: nat, i: nat, b: nat)
    requires DiskOk(disk, size) && DiskOk(disk', size) && PutCells(roots, disk, roots', disk', size, idx, 0, [])
    requires GetBlock(roots, disk, i, size) == b == GetBlock(roots', disk', i, size) && 0 < b < |disk| && b < |disk'|
    ensures disk'[b] == disk[b]
  {
    forall o: nat | o < size
      ensures disk'[b][o] == disk[b][o]
    {
      ByteInCell(roots, disk, roots', disk', size, idx, 0, [], i, o);
    }
  }

  /** Two logical blocks of a file are two blocks. */
  lemma DistinctNumbers(roots: Roots, disk: Disk, size: nat, owner: map<nat, Pos>, count: nat, i: nat, j: nat)
    requires Owns(roots, disk, size / 4, owner, true) && OnDisk(Numbers(roots, disk, size, count), disk) && i < count && j < count && i != j
    ensures Numbers(roots, disk, size, count)[i] != Numbers(roots, disk, size, count)[j]
  {
    NumberAt(roots, disk, size, count, i);
    NumberAt(roots, disk, size, count, j);
    DataOwner(roots, disk, size, owner, i);
    DataOwner(roots, disk, size, owner, j);
    if GetBlock(roots, disk, i, size) == GetBlock(roots, disk, j, size) { PlaceIsInjective(i, j, size / 4); }
  }

  lemma OneImage(nums: seq<nat>, disk: Disk, k: nat, image: Block)
    requires OnDisk(nums, disk) && k < |nums| && forall i: nat | i < |nums| && i != k :: nums[i] != nums[k]
    ensures OnDisk(nums, disk[nums[k] := image]) && Images(nums, disk[nums[k] := image]) == Images(nums, disk)[k := image]
  {
  }

  lemma LastReplaced(blocks: seq<Block>, more: seq<Block>, n: nat, block: Block)
    requires |blocks| == n && |more| == n + 1 && more[..n] == blocks
    ensures more[n := block] == blocks + [block]
  {
  }

  /** Writing one block of the directory keeps its tree and changes that image only. */
  lemma WriteKeeps(roots: Roots, disk: Disk, size: nat, owner: map<nat, Pos>, count: nat, k: nat, image: Block)
    requires DiskOk(disk, size) && Owns(roots, disk, size / 4, owner, true) && k < count && |image| == size
    requires OnDisk(Numbers(roots, disk, size, count), disk) && EndsAt(roots, disk, size, count)
    ensures var b, nums := GetBlock(roots, disk, k, size), Numbers(roots, disk, size, count);
            && b < |disk| && b in owner && DiskOk(disk[b := image], size) && Owns(roots, disk[b := image], size / 4, owner, true)
            && EndsAt(roots, disk[b := image], size, count) && Numbers(roots, disk[b := image], size, count) == nums
            && OnDisk(nums, disk[b := image]) && Images(nums, disk[b := image]) == Images(nums, disk)[k := image]
  {
    var b, nums := GetBlock(roots, disk, k, size), Numbers(roots, disk, size, count);
    NumberAt(roots, disk, size, count, k);
    DataOwner(roots, disk, size, owner, k);
    DataWriteKeepsTree(roots, disk, size, owner, b, image);
    EndKept(roots, disk, disk[b := image], size, count);
    SameNumbers(roots, disk, roots, disk[b := image], size, count);
    forall i: nat | i < count && i != k
      ensures nums[i] != nums[k]
    {
      DistinctNumbers(roots, disk, size, owner, count, i, k);
    }
    OneImage(nums, disk, k, image);
  }

  /** A block provided behind the last one leaves all others as they were. */
  lemma GrowKeeps(roots: Roots, disk: Disk, roots': Roots, disk': Disk, size: nat, count: nat, b: nat)
    requires DiskOk(disk, size) && DiskOk(disk', size) && |disk'| == |disk| && PutCells(roots, disk, roots', disk', size, count, 0, [])
    requires forall j: nat | j != count :: GetBlock(roots', disk', j, size) == GetBlock(roots, disk, j, size)
    requires b == GetBlock(roots', disk', count, size) && (b != 0 ==> b < |disk|)
    requires OnDisk(Numbers(roots, disk, size, count), disk) && EndsAt(roots, disk, size, count)
    ensures var nums := Numbers(roots, disk, size, count);
            && Numbers(roots', disk', size, count) == nums && OnDisk(nums, disk') && Images(nums, disk') == Images(nums, disk)
            && EndsAt(roots', disk', size, if b == 0 then count else count + 1)
            && (b != 0 ==> OnDisk(Numbers(roots', disk', size, count + 1), disk')
                           && Images(Numbers(roots', disk', size, count + 1), disk')[..count] == Images(nums, disk))
  {
    var nums := Numbers(roots, disk, size, count);
    SameNumbers(roots, disk, roots', disk', size, count);
    SameImages(roots, disk, roots', disk', size, count, nums);
    if b != 0 {
      MoreNumbers(roots', disk', size, count);
      PrefixImages(nums, b, disk');
    }
  }

  lemma PrefixImages(nums: seq<nat>, b: nat, disk: Disk)
    requires OnDisk(nums, disk) && 0 < b < |disk|
    ensures OnDisk(nums + [b], disk) && Images(nums + [b], disk)[..|nums|] == Images(nums, disk)
  {
  }

  /** The inode is as it was, and at most one block is neither free nor in it. */
  ghost predicate Dropped(roots: Roots, owner: map<nat, Pos>, free: set<nat>, roots': Roots, owner': map<nat, Pos>, free': set<nat>)
  {
    roots' == roots && owner' == owner && free' <= free && |free| <= |free'| + 1
  }

  lemma LosesOne(free: set<nat>, free': set<nat>, b: nat)
    requires free' <= free <= free' + {b}
    ensures |free| <= |free'| + 1
  {
    assert free == free' || free == free' + {b};
  }

  lemma DropKeeps(roots: Roots, disk: Disk, disk': Disk, size: nat, owner: map<nat, Pos>, count: nat)
    requires size > 0 && Owns(roots, disk, size / 4, owner, true) && |disk'| == |disk|
    requires forall c: nat | c in owner && c < |disk| :: disk'[c] == disk[c]
    requires OnDisk(Numbers(roots, disk, size, count), disk) && EndsAt(roots, disk, size, count)
    ensures Owns(roots, disk', size / 4, owner, true) && EndsAt(roots, disk', size, count)
    ensures Numbers(roots, disk', size, count) == Numbers(roots, disk, size, count)
    ensures OnDisk(Numbers(roots, disk, size, count), disk')
    ensures Images(Numbers(roots, disk, size, count), disk') == Images(Numbers(roots, disk, size, count), disk)
  {
    SameTree(roots, disk, disk', size, owner);
    var nums := Numbers(roots, disk, size, count);
    forall i: nat | i < |nums|
      ensures disk'[nums[i]] == disk[nums[i]]
    {
      NumberAt(roots, disk, size, count, i);
      DataOwner(roots, disk, size, owner, i);
    }
  }

  class Directory {
    /** The directory's inode and the volume. */
    const file: OpenFile
    /** How many blocks it has: its size is a whole number of blocks. */
    var count: nat

    ghost predicate Kept()
      reads this, file, file.vol
    {
      && file.TreeOk() && OnDisk(Numbers(file.roots, file.vol.disk, file.vol.size, count), file.vol.disk)
      && EndsAt(file.roots, file.vol.disk, file.vol.size, count)
    }

    ghost predicate Valid()
      reads this, file, file.vol
    {
      && Kept() && AllTile(Blocks(), file.vol.size) && Names(Entries(Blocks(), file.vol.size))
    }

    function Blocks(): seq<Block>
      requires Kept()
      reads this, file, file.vol
    {
      Images(Numbers(file.roots, file.vol.disk, file.vol.size, count), file.vol.disk)
    }

    ghost function Listing(): seq<Entry>
      requires Kept() && AllTile(Blocks(), file.vol.size)
      reads this, file, file.vol
    {
      Entries(Blocks(), file.vol.size)
    }

    /** An inode without blocks is an empty directory. */
    constructor (file: OpenFile)
      requires file.TreeOk() && forall i: nat :: GetBlock(file.roots, file.vol.disk, i, file.vol.size) == 0
      ensures Valid() && this.file == file && count == 0
    {
      this.file, this.count := file, 0;
    }

    /** dir_lookup; 0 when the name is absent. */
    method Lookup(name: seq<Byte>) returns (ino: nat)
      requires Valid() && |name| <= 255
      ensures ino == Find(Listing(), name)
    {
      var blocks := Blocks();
      var k, off := Search(blocks, file.vol.size, name);
      if k == |blocks| { return 0; }
      return Ino(blocks[k][off..]);
    }

    /** write_block of block `k` of the directory. */
    method WriteBlock(k: nat, image: Block)
      requires Kept() && k < count && |image| == file.vol.size
      modifies file.vol`disk
      ensures Kept() && Blocks() == old(Blocks())[k := image]
      ensures Follows(file.owner, file.vol.free, old(file.vol.disk), file.owner, file.vol.free, file.vol.disk)
    {
      var b := GetBlock(file.roots, file.vol.disk, k, file.vol.size);
      ghost var disk := file.vol.disk;
      WriteKeeps(file.roots, disk, file.vol.size, file.owner, count, k, image);
      file.vol.disk := file.vol.disk[b := image];
    }

    /** A zeroed block behind the last one, allocated and linked like a file's.  When that fails the
        working copy of the inode is dropped; a double-indirect block linked to it is lost. */
    method Grow() returns (ok: bool)
      requires Kept()
      modifies this`count, file`roots, file`owner, file.vol
      ensures Kept() && count == old(count) + (if ok then 1 else 0) && Blocks()[..old(count)] == old(Blocks())
      ensures !ok ==> Place(count, file.vol.size / 4).None? || |file.vol.free| <= 1
      ensures !ok ==> Dropped(old(file.roots), old(file.owner), old(file.vol.free), file.roots, file.owner, file.vol.free)
      ensures Follows(old(file.owner), old(file.vol.free), old(file.vol.disk), file.owner, file.vol.free, file.vol.disk)
    {
      var roots0 := file.roots;
      ghost var owner0, disk0 := file.owner, file.vol.disk;
      var b := file.ProvideBlock(count);
      ok := b != 0;
      if ok {
        DataOwner(file.roots, file.vol.disk, file.vol.size, file.owner, count);
        GrowKeeps(roots0, disk0, file.roots, file.vol.disk, file.vol.size, count, b);
        count := count + 1;
      } else {
        LosesOne(old(file.vol.free), file.vol.free, file.roots[13]);
        DropKeeps(roots0, disk0, file.vol.disk, file.vol.size, owner0, count);
        file.roots, file.owner := roots0, owner0;
      }
    }

    /** dir_add_entry */
    method Add(name: seq<Byte>, child: nat, fileType: Byte) returns (ok: bool)
      requires Valid() && |name| <= 255 && 0 < child < U32
      requires Find(Listing(), name) == 0
      modifies this`count, file`roots, file`owner, file.vol
      ensures Valid()
      ensures ok ==> Gained(old(Listing()), Listing(), name, child, fileType)
      ensures !ok ==> Blocks() == old(Blocks()) && NoRoom(Blocks(), Align4(8 + |name|))
                      && (Place(count, file.vol.size / 4).None? || |file.vol.free| <= 1)
      ensures !ok ==> Dropped(old(file.roots), old(file.owner), old(file.vol.free), file.roots, file.owner, file.vol.free)
      ensures Follows(old(file.owner), old(file.vol.free), old(file.vol.disk), file.owner, file.vol.free, file.vol.disk)
    {
      ok := AddInRoom(name, child, fileType);
      if !ok {
        ok := AddBehind(name, child, fileType);
      }
    }

    /** The walk of dir_add_entry over the blocks there are. */
    method AddInRoom(name: seq<Byte>, child: nat, fileType: Byte) returns (ok: bool)
      requires Valid() && |name| <= 255 && 0 < child < U32 && Find(Listing(), name) == 0
      modifies file.vol`disk
      ensures Valid()
      ensures ok ==> Gained(old(Listing()), Listing(), name, child, fileType)
                     && Follows(file.owner, file.vol.free, old(file.vol.disk), file.owner, file.vol.free, file.vol.disk)
      ensures !ok ==> file.vol.disk == old(file.vol.disk) && NoRoom(Blocks(), Align4(8 + |name|))
    {
      var blocks, size := Blocks(), file.vol.size;
      var k, block := FirstRoom(blocks, size, name, child, fileType);
      ok := k < |blocks|;
      if ok { AddIn(k, block, Entry(name, child, fileType)); }
    }

    /** Block `k` with the entry added to it is written back. */
    method AddIn(k: nat, block: Block, ghost e: Entry)
      requires Valid() && k < count && |block| == file.vol.size && Tiles(block) && Inserted(Live(Blocks()[k]), Live(block), e)
      requires e.ino != 0 && Find(Listing(), e.name) == 0
      modifies file.vol`disk
      ensures Valid() && Gained(old(Listing()), Listing(), e.name, e.ino, e.kind)
      ensures Follows(file.owner, file.vol.free, old(file.vol.disk), file.owner, file.vol.free, file.vol.disk)
    {
      RoomTaken(Blocks(), file.vol.size, k, block, e);
      WriteBlock(k, block);
    }

    /** The part of dir_add_entry for a directory without room. */
    method AddBehind(name: seq<Byte>, child: nat, fileType: Byte) returns (ok: bool)
      requires Valid() && |name| <= 255 && 0 < child < U32 && Find(Listing(), name) == 0
      modifies this`count, file`roots, file`owner, file.vol
      ensures Valid()
      ensures ok ==> Gained(old(Listing()), Listing(), name, child, fileType)
      ensures !ok ==> Blocks() == old(Blocks()) && (Place(count, file.vol.size / 4).None? || |file.vol.free| <= 1)
      ensures !ok ==> Dropped(old(file.roots), old(file.owner), old(file.vol.free), file.roots, file.owner, file.vol.free)
      ensures Follows(old(file.owner), old(file.vol.free), old(file.vol.disk), file.owner, file.vol.free, file.vol.disk)
    {
      var block := OnlyRecord(file.vol.size, child, fileType, name);
      BlockAdded(Blocks(), file.vol.size, block, Entry(name, child, fileType));
      ok := Append(block);
    }

    /** A new block with this image behind the last one. */
    method Append(block: Block) returns (ok: bool)
      requires Kept() && |block| == file.vol.size
      modifies this`count, file`roots, file`owner, file.vol
      ensures Kept() && Blocks() == if ok then old(Blocks()) + [block] else old(Blocks())
      ensures !ok ==> Place(count, file.vol.size / 4).None? || |file.vol.free| <= 1
      ensures !ok ==> Dropped(old(file.roots), old(file.owner), old(file.vol.free), file.roots, file.owner, file.vol.free)
      ensures Follows(old(file.owner), old(file.vol.free), old(file.vol.disk), file.owner, file.vol.free, file.vol.disk)
    {
      ghost var blocks := Blocks();
      var n := count;
      ok := Grow();
      if !ok {
        assert Blocks()[..n] == Blocks();
        return;
      }
      ghost var owner1, free1, disk1 := file.owner, file.vol.free, file.vol.disk;
      LastReplaced(blocks, Blocks(), n, block);
      WriteBlock(n, block);
      FollowsTwice(old(file.owner), old(file.vol.free), old(file.vol.disk), owner1, free1, disk1, file.owner, file.vol.free, file.vol.disk);
    }

    /** dir_remove_entry */
    method Remove(name: seq<Byte>) returns (ok: bool)
      requires Valid() && |name| <= 255
      modifies file.vol`disk
      ensures Valid()
      ensures ok <==> old(Find(Listing(), name)) != 0
      ensures if ok then Gained(old(Listing()), Listing(), name, 0, 0) else file.vol.disk == old(file.vol.disk)
      ensures Follows(file.owner, file.vol.free, old(file.vol.disk), file.owner, file.vol.free, file.vol.disk)
    {
      var blocks, size := Blocks(), file.vol.size;
      var k, off := Search(blocks, size, name);
      if k == |blocks| { return false; }
      var block := DeleteAt(blocks[k], off, name);
      EntryGone(blocks, size, k, block, name);
      WriteBlock(k, block);
      ok := true;
    }
  }

  /** A fresh block with one record over all of it. */
  method OnlyRecord(size: nat, child: nat, fileType: Byte, name: seq<Byte>) returns (block: Block)
    requires 512 <= size <= 4096 && size % 4 == 0 && |name| <= 255 && 0 < child < U32
    ensures |block| == size && Tiles(block) && Live(block) == [Entry(name, child, fileType)]
  {
    var zero := Zero(size);
    assert zero[size..] == [];
    block := WriteRecord(zero, size, child, fileType, name);
  }

  lemma LiveHit(block: Block, off: nat) returns (pre: seq<Entry>, e: Entry, post: seq<Entry>)
    requires StandsAt(block, off) && off < |block| && Ino(block[off..]) != 0
    ensures Tiles(block) && pre == Live(block[..off]) && e == Entry(Name(block[off..]), Ino(block[off..]), FileType(block[off..]))
    ensures Live(block) == pre + ([e] + post)
  {
    WholeBlock(block, off);
    var t := block[off..];
    pre, e, post := Live(block[..off]), Entry(Name(t), Ino(t), FileType(t)), Live(t[RecLen(t)..]);
  }
}
