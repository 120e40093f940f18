/** Directory records of ext2 (kernel/fs/ext2.c): variable-length records that tile a block, the
    walk over them, and the in-place edits of dir_add_entry and dir_remove_entry. */
module Ext2Dirent {
  import opened Ext2Tree
  import opened Ext2Entries

  // ---------------------------------------------------------------- one record, as bytes

  function Le16(b: Block, at: nat): (v: nat)
    requires at + 2 <= |b|
    ensures v < 0x1_0000
  {
    b[at] as int + 256 * b[at + 1] as int
  }

  function Align4(x: nat): (r: nat)
    ensures x <= r < x + 4 && r % 4 == 0
  {
    if x % 4 != 0 then x - x % 4 + 4 else x
  }

  function Ino(t: Block): nat
    requires |t| >= 8
  {
    Le32(t, 0)
  }

  function RecLen(t: Block): nat
    requires |t| >= 8
  {
    Le16(t, 4)
  }

  function NameLen(t: Block): nat
    requires |t| >= 8
  {
    t[6]
  }

  /** The bytes a record's own name needs. */
  function Needed(t: Block): nat
    requires |t| >= 8
  {
    Align4(8 + NameLen(t))
  }

  /** `t` starts with a record that is aligned, holds its name and stays inside the block. */
  ghost predicate Record(t: Block)
  {
    |t| >= 8 && RecLen(t) % 4 == 0 && Needed(t) <= RecLen(t) <= |t|
  }

  function FileType(t: Block): Byte
    requires |t| >= 8
  {
    t[7]
  }

  function Name(t: Block): seq<Byte>
    requires |t| >= 8 && 8 + NameLen(t) <= |t|
  {
    t[8..8 + NameLen(t)]
  }

  /** Records follow each other up to the last byte. */
  ghost predicate Tiles(t: Block)
    decreases |t|
  {
    t == [] || (Record(t) && Tiles(t[RecLen(t)..]))
  }

  ghost function Head(t: Block): seq<Entry>
    requires Record(t)
  {
    if Ino(t) == 0 then [] else [Entry(Name(t), Ino(t), FileType(t))]
  }

  /** The live entries of a block, in order. */
  ghost function Live(t: Block): seq<Entry>
    requires Tiles(t)
    decreases |t|
  {
    if t == [] then [] else Head(t) + Live(t[RecLen(t)..])
  }

  lemma SameRecord(t: Block, u: Block)
    requires Record(t) && RecLen(t) <= |u| && u[..RecLen(t)] == t[..RecLen(t)]
    ensures Record(u) && RecLen(u) == RecLen(t) && Head(u) == Head(t) && NameLen(u) == NameLen(t) && Ino(u) == Ino(t)
  {
    assert forall k: nat | k < RecLen(t) :: u[k] == u[..RecLen(t)][k] && t[k] == t[..RecLen(t)][k];
    assert Name(u) == Name(t);
  }

  /** What follows a tiled prefix is read as if it stood alone. */
  lemma {:induction false} TilesConcat(pre: Block, t: Block)
    requires Tiles(pre)
    ensures Tiles(pre + t) <==> Tiles(t)
    ensures Tiles(t) ==> Live(pre + t) == Live(pre) + Live(t)
    decreases |pre|
  {
    if pre == [] {
      assert pre + t == t;
    } else {
      var n := RecLen(pre);
      assert (pre + t)[..n] == pre[..n];
      SameRecord(pre, pre + t);
      assert (pre + t)[n..] == pre[n..] + t;
      TilesConcat(pre[n..], t);
    }
  }

  // ---------------------------------------------------------------- writing a record

  function Half(v: nat): seq<Byte>
    requires v < 0x1_0000
  {
    [Byte0(v), Byte0(v / 256)]
  }

  /** The first record of `t` with its length changed. */
  function SetRecLen(t: Block, len: nat): (r: Block)
    requires |t| >= 8 && len < 0x1_0000
    ensures |r| == |t|
  {
    t[..4] + Half(len) + t[6..]
  }

  /** A record of `len` bytes for `name` written over the start of `t`. */
  function PutRecord(t: Block, ino: nat, len: nat, fileType: Byte, name: seq<Byte>): (r: Block)
    requires 8 + |name| <= |t| && ino < U32 && len < 0x1_0000 && |name| <= 255
    ensures |r| == |t|
  {
    PutLe32(t, 0, ino)[..4] + Half(len) + [|name|, fileType] + name + t[8 + |name|..]
  }

  lemma PutRecordIs(t: Block, ino: nat, len: nat, fileType: Byte, name: seq<Byte>)
    requires 8 + |name| <= |t| && ino < U32 && len < 0x1_0000 && |name| <= 255
    ensures var r := PutRecord(t, ino, len, fileType, name);
            && Ino(r) == ino && RecLen(r) == len && NameLen(r) == |name| && FileType(r) == fileType && Name(r) == name
            && r[8 + |name|..] == t[8 + |name|..]
  {
    LeRoundTrip(t, 0, ino);
  }

  /** The layout on disk, byte by byte. */
  lemma RecordBytes(t: Block, ino: nat, len: nat, fileType: Byte, name: seq<Byte>)
    requires 8 + |name| <= |t| && ino < U32 && len < 0x1_0000 && |name| <= 255
    ensures var r := PutRecord(t, ino, len, fileType, name);
            && r[0] == ino % 256 && r[1] == ino / 0x100 % 256 && r[2] == ino / 0x1_0000 % 256 && r[3] == ino / 0x100_0000
            && r[4] == len % 256 && r[5] == len / 256 && r[6] == |name| && r[7] == fileType
            && r[8..] == name + t[8 + |name|..]
    ensures RecLen(t) == t[4] as int + 0x100 * t[5] as int && NameLen(t) == t[6] && FileType(t) == t[7]
  {
    LeBytes(t, 0, ino);
    var r, w := PutRecord(t, ino, len, fileType, name), PutLe32(t, 0, ino);
    assert forall k: nat | k < 4 :: r[k] == w[k];
  }

  lemma SetRecLenIs(t: Block, len: nat)
    requires |t| >= 8 && len < 0x1_0000 && 8 + NameLen(t) <= |t|
    ensures var r := SetRecLen(t, len);
            && Ino(r) == Ino(t) && RecLen(r) == len && NameLen(r) == NameLen(t) && Name(r) == Name(t)
            && forall k: nat | 6 <= k < |t| :: r[k] == t[k]
  {
  }

  // ---------------------------------------------------------------- edits of one record

  lemma TailKept(r: Block, t: Block, from: nat, n: nat)
    requires |r| == |t| && from <= n <= |t| && r[from..] == t[from..]
    ensures r[n..] == t[n..]
  {
    assert r[n..] == r[from..][n - from..] && t[n..] == t[from..][n - from..];
  }

  lemma Joined(a: Block, b: Block, la: seq<Entry>, lb: seq<Entry>)
    requires Tiles(a) && Tiles(b) && Live(a) == la && Live(b) == lb
    ensures Tiles(a + b) && Live(a + b) == la + lb
  {
    TilesConcat(a, b);
  }

  /** The first record alone, shrunk to the bytes its name needs. */
  method ShrinkRecord(t: Block) returns (r: Block)
    requires Record(t)
    ensures |r| == Needed(t) && Tiles(r) && Live(r) == Head(t)
  {
    var n := Needed(t);
    r := SetRecLen(t, n)[..n];
    SetRecLenIs(t, n);
    assert forall k: nat | k < n :: r[k] == SetRecLen(t, n)[k];
    assert Name(r) == Name(t);
    assert r[n..] == [];
  }

  /** A live record of `len` bytes over the start of `u`; what follows it stays. */
  method WriteRecord(u: Block, len: nat, ino: nat, fileType: Byte, name: seq<Byte>) returns (r: Block)
    requires len <= |u| && Tiles(u[len..]) && len % 4 == 0 && len < 0x1_0000
    requires |name| <= 255 && Align4(8 + |name|) <= len && 0 < ino < U32
    ensures |r| == |u| && Tiles(r) && Live(r) == [Entry(name, ino, fileType)] + Live(u[len..])
  {
    r := PutRecord(u, ino, len, fileType, name);
    PutRecordIs(u, ino, len, fileType, name);
    TailKept(r, u, 8 + |name|, len);
  }

  /** A deleted record keeps its length and name; only the inode is zeroed. */
  lemma DeleteIs(t: Block)
    requires t != [] && Tiles(t)
    ensures Tiles(PutLe32(t, 0, 0)) && Live(PutLe32(t, 0, 0)) == Live(t[RecLen(t)..])
  {
    var r := PutLe32(t, 0, 0);
    LeRoundTrip(t, 0, 0);
    assert r[RecLen(t)..] == t[RecLen(t)..];
  }

  // ---------------------------------------------------------------- walking one block

  /** The walk stands at `off`: records end there and start there. */
  ghost predicate StandsAt(block: Block, off: nat)
  {
    off <= |block| && Tiles(block[..off]) && Tiles(block[off..])
  }

  lemma AtStart(block: Block)
    requires Tiles(block)
    ensures StandsAt(block, 0)
  {
    assert block[0..] == block;
  }

  lemma OneRecord(t: Block)
    requires Record(t)
    ensures Tiles(t[..RecLen(t)]) && Live(t[..RecLen(t)]) == Head(t)
  {
    var r := t[..RecLen(t)];
    assert r[..RecLen(t)] == t[..RecLen(t)];
    SameRecord(t, r);
    assert r[RecLen(t)..] == [];
  }

  lemma Step(pre: Block, t: Block, n: nat)
    requires Tiles(pre) && Tiles(t) && t != [] && n == RecLen(t)
    ensures 0 < n <= |t| && Tiles(pre + t[..n]) && Tiles(t[n..]) && Live(pre + t[..n]) == Live(pre) + Head(t)
  {
    OneRecord(t);
    Joined(pre, t[..n], Live(pre), Head(t));
  }

  lemma Slices(block: Block, off: nat, n: nat)
    requires off + n <= |block|
    ensures block[..off + n] == block[..off] + block[off..][..n] && block[off..][n..] == block[off + n..]
  {
  }

  /** One step of the walk. */
  lemma Advance(block: Block, off: nat, n: nat)
    requires StandsAt(block, off) && off < |block| && n == RecLen(block[off..])
    ensures 0 < n && StandsAt(block, off + n) && Live(block[..off + n]) == Live(block[..off]) + Head(block[off..])
    ensures block[off..][n..] == block[off + n..]
  {
    Step(block[..off], block[off..], n);
    Slices(block, off, n);
  }

  lemma WholeBlock(block: Block, off: nat)
    requires StandsAt(block, off)
    ensures Tiles(block) && Live(block) == Live(block[..off]) + Live(block[off..])
  {
    assert block == block[..off] + block[off..];
    TilesConcat(block[..off], block[off..]);
  }

  lemma AtEnd(block: Block, off: nat)
    requires StandsAt(block, off) && off + 8 > |block|
    ensures block[..off] == block && block[off..] == []
  {
  }

  /** The record offers room: it is deleted and long enough, or has enough slack. */
  predicate RoomHere(t: Block, need: nat)
    requires |t| >= 8
  {
    (Ino(t) == 0 && RecLen(t) >= need) || RecLen(t) - Needed(t) >= need
  }

  /** Some record of the block offers room. */
  ghost predicate HasRoom(t: Block, need: nat)
    requires Tiles(t)
    decreases |t|
  {
    t != [] && (RoomHere(t, need) || HasRoom(t[RecLen(t)..], need))
  }

  /** One step of the walk past a record without room. */
  lemma AdvanceNoRoom(block: Block, off: nat, n: nat, need: nat)
    requires StandsAt(block, off) && off < |block| && n == RecLen(block[off..])
    ensures 0 < n && StandsAt(block, off + n)
    ensures RoomHere(block[off..], need) ==> HasRoom(block[off..], need)
    ensures !RoomHere(block[off..], need) ==> (HasRoom(block[off..], need) <==> HasRoom(block[off + n..], need))
  {
    Advance(block, off, n);
  }

  /** Replacing what follows `off` by a tail with one more entry. */
  lemma EditInserts(block: Block, off: nat, t': Block, e: Entry)
    requires StandsAt(block, off) && Tiles(t') && Inserted(Live(block[off..]), Live(t'), e)
    ensures Tiles(block) && Tiles(block[..off] + t') && Inserted(Live(block), Live(block[..off] + t'), e)
  {
    WholeBlock(block, off);
    TilesConcat(block[..off], t');
    InsertedWithin(Live(block[..off]), Live(block[off..]), Live(t'), [], e);
    assert Live(block[..off]) + Live(block[off..]) + [] == Live(block);
    assert Live(block[..off]) + Live(t') + [] == Live(block[..off] + t');
  }

  /** An entry put between the first record and the rest. */
  lemma InsertsAfterHead(t: Block, t': Block, n: nat, e: Entry)
    requires t != [] && Tiles(t) && n == RecLen(t) && Tiles(t') && Live(t') == Head(t) + ([e] + Live(t[n..]))
    ensures Inserted(Live(t), Live(t'), e)
  {
    InsertedAt(Head(t), e, Live(t[n..]));
    assert Head(t) + [e] + Live(t[n..]) == Live(t');
  }

  /** The record at `off` is reused or split when it offers enough room. */
  method AddHere(block: Block, off: nat, ino: nat, fileType: Byte, name: seq<Byte>) returns (done: bool, block': Block)
    requires StandsAt(block, off) && off < |block| && Tiles(block) && |name| <= 255 && 0 < ino < U32
    ensures |block'| == |block| && Tiles(block')
    ensures done <==> RoomHere(block[off..], Align4(8 + |name|))
    ensures done ==> Inserted(Live(block), Live(block'), Entry(name, ino, fileType))
    ensures !done ==> block' == block
  {
    var t, need, e := block[off..], Align4(8 + |name|), Entry(name, ino, fileType);
    var len, actual := RecLen(t), Needed(t);
    if Ino(t) == 0 && len >= need {
      var t' := WriteRecord(t, len, ino, fileType, name);
      assert Live(t') == Head(t) + ([e] + Live(t[len..]));
      InsertsAfterHead(t, t', len, e);
      EditInserts(block, off, t', e);
      return true, block[..off] + t';
    }
    if len - actual >= need {
      var t' := SplitRecord(t, ino, fileType, name);
      InsertsAfterHead(t, t', len, e);
      EditInserts(block, off, t', e);
      return true, block[..off] + t';
    }
    return false, block;
  }

  /** The record is shrunk to its own need and a record with the slack follows it. */
  method SplitRecord(t: Block, ino: nat, fileType: Byte, name: seq<Byte>) returns (r: Block)
    requires Record(t) && Tiles(t[RecLen(t)..]) && |name| <= 255 && 0 < ino < U32
    requires Align4(8 + |name|) <= RecLen(t) - Needed(t)
    ensures |r| == |t| && Tiles(r) && Live(r) == Head(t) + ([Entry(name, ino, fileType)] + Live(t[RecLen(t)..]))
  {
    var n: nat, slack: nat := Needed(t), RecLen(t) - Needed(t);
    Slices(t, n, slack);
    var second := WriteRecord(t[n..], slack, ino, fileType, name);
    var first := ShrinkRecord(t);
    Joined(first, second, Live(first), Live(second));
    r := first + second;
  }

  /** The walk of dir_add_entry over one block. */
  method AddInBlock(block: Block, ino: nat, fileType: Byte, name: seq<Byte>) returns (done: bool, block': Block)
    requires Tiles(block) && |name| <= 255 && 0 < ino < U32
    ensures |block'| == |block| && Tiles(block')
    ensures done <==> HasRoom(block, Align4(8 + |name|))
    ensures done ==> Inserted(Live(block), Live(block'), Entry(name, ino, fileType))
    ensures !done ==> block' == block
  {
    ghost var need := Align4(8 + |name|);
    var off: nat := 0;
    AtStart(block);
    assert block[0..] == block;
    while off + 8 <= |block|
      invariant StandsAt(block, off) && (HasRoom(block, need) <==> HasRoom(block[off..], need))
      decreases |block| - off
    {
      var n := RecLen(block[off..]);
      AdvanceNoRoom(block, off, n, need);
      done, block' := AddHere(block, off, ino, fileType, name);
      if done { return; }
      off := off + n;
    }
    AtEnd(block, off);
    return false, block;
  }

  lemma AbsentAfter(block: Block, off: nat, n: nat, name: seq<Byte>)
    requires StandsAt(block, off) && off < |block| && n == RecLen(block[off..]) && Absent(Live(block[..off]), name)
    requires Ino(block[off..]) == 0 || Name(block[off..]) != name
    ensures 0 < n && StandsAt(block, off + n) && Absent(Live(block[..off + n]), name)
  {
    Advance(block, off, n);
  }

  /** The walk of dir_lookup and dir_remove_entry: the first live record with the name. */
  method FindInBlock(block: Block, name: seq<Byte>) returns (found: bool, off: nat)
    requires Tiles(block) && |name| <= 255
    ensures found ==> off < |block| && StandsAt(block, off) && Ino(block[off..]) != 0 && Name(block[off..]) == name
    ensures found ==> Absent(Live(block[..off]), name)
    ensures !found ==> Absent(Live(block), name)
  {
    off := 0;
    AtStart(block);
    while off + 8 <= |block|
      invariant StandsAt(block, off) && Absent(Live(block[..off]), name)
      decreases |block| - off
    {
      var t := block[off..];
      var n := RecLen(t);
      if Ino(t) != 0 && NameLen(t) == |name| && Name(t) == name {
        return true, off;
      }
      AbsentAfter(block, off, n, name);
      off := off + n;
    }
    AtEnd(block, off);
    found := false;
  }

  /** The live record at `off` becomes a deleted one. */
  method DeleteAt(block: Block, off: nat, ghost name: seq<Byte>) returns (block': Block)
    requires StandsAt(block, off) && off < |block| && Tiles(block) && Ino(block[off..]) != 0 && Name(block[off..]) == name
    requires Absent(Live(block[..off]), name)
    ensures |block'| == |block| && Tiles(block') && Removed(Live(block), Live(block'), name)
  {
    var t := block[off..];
    var t' := PutLe32(t, 0, 0);
    DeleteIs(t);
    block' := block[..off] + t';
    WholeBlock(block, off);
    Joined(block[..off], t', Live(block[..off]), Live(t'));
    ghost var pre, e, rest := Live(block[..off]), Entry(Name(t), Ino(t), FileType(t)), Live(t[RecLen(t)..]);
    assert Live(t) == [e] + rest;
    assert pre + ([e] + rest) == pre + [e] + rest;
    RemovedAt(pre, e, rest);
  }
}
