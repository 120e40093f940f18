/** The block bitmaps of an ext2 volume (kernel/fs/ext2.c): one bitmap and one free count per
    block group, and the set of free block numbers they stand for. */
module Ext2Bitmap {

  /** `first` is the superblock's first data block, `perGroup` its blocks per group. */
  datatype BlockMap = BlockMap(bits: seq<seq<bool>>, counts: seq<nat>, perGroup: nat, first: nat)

  /** Number of clear bits. */
  function Zeros(bits: seq<bool>): nat
  {
    if bits == [] then 0
    else Zeros(bits[..|bits| - 1]) + if bits[|bits| - 1] then 0 else 1
  }

  lemma {:induction false} ZerosFlip(bits: seq<bool>, i: nat)
    requires i < |bits|
    ensures Zeros(bits[i := true]) + (if bits[i] then 0 else 1) == Zeros(bits)
    ensures Zeros(bits[i := false]) == Zeros(bits) + if bits[i] then 1 else 0
  {
    var n := |bits| - 1;
    if i == n {
      assert bits[i := true][..n] == bits[..n] == bits[i := false][..n];
    } else {
      ZerosFlip(bits[..n], i);
      assert bits[i := true][..n] == bits[..n][i := true];
      assert bits[i := false][..n] == bits[..n][i := false];
    }
  }

  lemma {:induction false} NoZeros(bits: seq<bool>)
    ensures Zeros(bits) == 0 <==> forall i: nat | i < |bits| :: bits[i]
  {
    if bits != [] {
      var n := |bits| - 1;
      NoZeros(bits[..n]);
      assert forall i: nat | i < n :: bits[..n][i] == bits[i];
    }
  }

  /** Every group's free count is the number of clear bits of its bitmap. */
  ghost predicate MapOk(m: BlockMap)
  {
    && m.perGroup > 0 && |m.bits| == |m.counts|
    && forall g: nat | g < |m.bits| :: |m.bits[g]| == m.perGroup && m.counts[g] == Zeros(m.bits[g])
  }

  /** One past the highest block number the bitmaps describe. */
  function Total(m: BlockMap): nat
  {
    m.first + |m.bits| * m.perGroup
  }

  function BlockAt(m: BlockMap, g: nat, bit: nat): nat
  {
    m.first + g * m.perGroup + bit
  }

  lemma BlockAtBounds(m: BlockMap, g: nat, bit: nat)
    requires g < |m.bits| && bit < m.perGroup
    ensures m.first <= BlockAt(m, g, bit) < Total(m)
  {
    assert (g + 1) * m.perGroup <= |m.bits| * m.perGroup;
  }

  lemma BlockAtUnique(m: BlockMap, g: nat, bit: nat, h: nat, other: nat)
    requires bit < m.perGroup && other < m.perGroup
    ensures BlockAt(m, g, bit) == BlockAt(m, h, other) <==> g == h && bit == other
  {
    if g < h {
      assert (g + 1) * m.perGroup <= h * m.perGroup;
    } else if h < g {
      assert (h + 1) * m.perGroup <= g * m.perGroup;
    }
  }

  /** The bit of a block number, as free_block computes it. */
  lemma GroupOf(m: BlockMap, rel: nat)
    requires m.perGroup > 0
    ensures BlockAt(m, rel / m.perGroup, rel % m.perGroup) == m.first + rel
    ensures rel / m.perGroup < |m.bits| <==> m.first + rel < Total(m)
  {
    var g := rel / m.perGroup;
    assert rel == g * m.perGroup + rel % m.perGroup;
    if g < |m.bits| {
      BlockAtBounds(m, g, rel % m.perGroup);
    } else {
      assert g * m.perGroup >= |m.bits| * m.perGroup;
    }
  }

  /** `free` is the set of block numbers whose bit is clear. */
  ghost predicate Matches(m: BlockMap, free: set<nat>)
    requires MapOk(m)
  {
    && (forall b | b in free :: m.first <= b < Total(m))
    && (forall g: nat, bit: nat | g < |m.bits| && bit < m.perGroup :: BlockAt(m, g, bit) in free <==> !m.bits[g][bit])
  }

  /** Bit `bit` of group `g` becomes `v`, and the group's count follows. */
  function Put(m: BlockMap, g: nat, bit: nat, v: bool): BlockMap
    requires g < |m.bits| && |m.counts| == |m.bits| && bit < |m.bits[g]| && (v ==> m.counts[g] > 0)
  {
    m.(bits := m.bits[g := m.bits[g][bit := v]], counts := m.counts[g := if v then m.counts[g] - 1 else m.counts[g] + 1])
  }

  lemma PutMapOk(m: BlockMap, g: nat, bit: nat, v: bool)
    requires MapOk(m) && g < |m.bits| && bit < m.perGroup && m.bits[g][bit] != v
    requires v ==> m.counts[g] > 0
    ensures MapOk(Put(m, g, bit, v)) && Total(Put(m, g, bit, v)) == Total(m)
  {
    ZerosFlip(m.bits[g], bit);
  }

  lemma PutChangesOneBlock(m: BlockMap, free: set<nat>, g: nat, bit: nat, v: bool)
    requires MapOk(m) && Matches(m, free) && g < |m.bits| && bit < m.perGroup && m.bits[g][bit] != v
    requires v ==> m.counts[g] > 0
    ensures var b, next := BlockAt(m, g, bit), Put(m, g, bit, v);
            && MapOk(next) && Total(next) == Total(m) && next.first == m.first
            && Matches(next, if v then free - {b} else free + {b})
  {
    var b, next := BlockAt(m, g, bit), Put(m, g, bit, v);
    var free' := if v then free - {b} else free + {b};
    PutMapOk(m, g, bit, v);
    BlockAtBounds(m, g, bit);
    forall h: nat, other: nat | h < |m.bits| && other < m.perGroup
      ensures BlockAt(next, h, other) in free' <==> !next.bits[h][other]
    {
      BlockAtUnique(m, g, bit, h, other);
      assert BlockAt(next, h, other) == BlockAt(m, h, other);
    }
  }

  /** bitmap_find_free: the lowest clear bit, or the width when there is none. */
  method FindFree(bits: seq<bool>) returns (bit: nat)
    ensures bit <= |bits| && (forall i: nat | i < bit :: bits[i])
    ensures bit < |bits| ==> !bits[bit]
  {
    bit := 0;
    while bit < |bits|
      invariant bit <= |bits| && forall i: nat | i < bit :: bits[i]
    {
      if !bits[bit] { return; }
      bit := bit + 1;
    }
  }

  lemma ClearBitOf(m: BlockMap, free: set<nat>, b: nat) returns (g: nat, bit: nat)
    requires MapOk(m) && Matches(m, free) && b in free
    ensures g < |m.bits| && bit < m.perGroup && b == BlockAt(m, g, bit) && !m.bits[g][bit]
  {
    GroupOf(m, b - m.first);
    g, bit := (b - m.first) / m.perGroup, (b - m.first) % m.perGroup;
  }

  /** All the bitmaps are full exactly when all the counts are zero. */
  lemma FullIff(m: BlockMap, free: set<nat>)
    requires MapOk(m) && Matches(m, free)
    ensures free == {} <==> forall g: nat | g < |m.counts| :: m.counts[g] == 0
  {
    forall g: nat | g < |m.counts|
      ensures free == {} ==> m.counts[g] == 0
    {
      NoZeros(m.bits[g]);
      if bit: nat :| bit < m.perGroup && !m.bits[g][bit] { assert BlockAt(m, g, bit) in free; }
    }
    forall b | b in free
      ensures exists g: nat :: g < |m.counts| && m.counts[g] != 0
    {
      var g, _ := ClearBitOf(m, free, b);
      NoZeros(m.bits[g]);
    }
  }

  /** The first clear bit of the first group with a free block is the lowest free block. */
  lemma LowestFree(m: BlockMap, free: set<nat>, g: nat, bit: nat)
    requires MapOk(m) && Matches(m, free) && g < |m.bits| && bit < m.perGroup
    requires forall h: nat | h < g :: m.counts[h] == 0
    requires forall i: nat | i < bit :: m.bits[g][i]
    ensures forall b | b in free :: BlockAt(m, g, bit) <= b
  {
    forall b | b in free
      ensures BlockAt(m, g, bit) <= b
    {
      var h, other := ClearBitOf(m, free, b);
      NoZeros(m.bits[h]);
      BlockAtOrder(m, g, bit, h, other);
    }
  }

  lemma BlockAtOrder(m: BlockMap, g: nat, bit: nat, h: nat, other: nat)
    requires bit < m.perGroup
    requires g < h || (g == h && bit <= other)
    ensures BlockAt(m, g, bit) <= BlockAt(m, h, other)
  {
    if g < h { assert (g + 1) * m.perGroup <= h * m.perGroup; }
  }
}
