/** The buddy allocator under its lock: allocation by splitting, release by merging, with the
    merge decision read from a single parity bit. */
module Buddy {
  import opened Options
  import opened BuddyCore

  class BuddyAllocator {
    const total: nat       // g_total_frames
    var lists: Lists       // g_free_lists
    var bits: Bits         // g_buddy_coalesce
    var freePages: int     // g_free_pages

    ghost predicate Valid()
      reads this
    {
      Inv(total, lists, bits) && freePages == |Free()|
    }

    ghost function Free(): set<nat>
      reads this
    {
      FreeFrames(total, lists)
    }

    ghost function Frames(order: nat, frame: nat): set<nat>
    {
      BlockFrames(total, order, Shr(frame, order))
    }

    /** Nothing is free until memory is handed over with `Release`. */
    constructor (total: nat)
      ensures Valid() && this.total == total && Free() == {}
    {
      this.total := total;
      lists := seq(MAX_ORDER + 1, o => []);
      bits := seq(MAX_ORDER + 1, (o: nat) => seq((Blocks(total, o) + 1) / 2, p => false));
      freePages := 0;
      new;
      assert forall o: nat, b: nat :: !IsFree(lists, o, b);
      assert Free() == {};
      assert forall o: nat, p: nat | o < |bits| && p < |bits[o]| :: !bits[o][p];
    }

    /** Smallest order at or above `order` with a free block; above MAX_ORDER if none. */
    method FindOrder(order: nat) returns (current: nat)
      requires Valid() && order <= MAX_ORDER
      ensures order <= current <= MAX_ORDER + 1
      ensures current <= MAX_ORDER ==> lists[current] != []
      ensures forall k: nat | order <= k < current :: lists[k] == []
      ensures current <= MAX_ORDER <==> exists b: nat ::
                InMemory(total, order, b) && BlockFrames(total, order, b) <= Free()
    {
      Completeness(total, lists, bits, order);
      current := order;
      while current <= MAX_ORDER
        invariant order <= current <= MAX_ORDER + 1
        invariant forall k: nat | order <= k < current :: lists[k] == []
      {
        if lists[current] != [] { break; }
        current := current + 1;
      }
    }

    /** Halves the held block down to the requested order, freeing each right half. */
    method SplitDown(current0: nat, block0: nat, order: nat)
      requires order <= current0 <= MAX_ORDER
      requires Inv(total, lists, bits) && Held(lists, current0, block0) && InMemory(total, current0, block0)
      modifies this`lists, this`bits
      ensures Inv(total, lists, bits)
      ensures Frames(order, Shl(block0, current0)) !! Free()
      ensures Free() + Frames(order, Shl(block0, current0)) == old(Free()) + BlockFrames(total, current0, block0)
      ensures InMemory(total, order, Shr(Shl(block0, current0), order))
      ensures Shl(Shr(Shl(block0, current0), order), order) == Shl(block0, current0)
    {
      var current, block := current0, block0;
      HeldIsNotFree(total, lists, current, block);
      while current > order
        invariant order <= current <= MAX_ORDER
        invariant Inv(total, lists, bits)
        invariant Held(lists, current, block) && InMemory(total, current, block)
        invariant Shl(block, current) == Shl(block0, current0)
        invariant Free() + BlockFrames(total, current, block) == old(Free()) + BlockFrames(total, current0, block0)
        invariant Free() !! BlockFrames(total, current, block)
      {
        current := current - 1;
        SplitStep(total, lists, bits, current, block);
        var buddy := 2 * block + 1;
        lists := Push(lists, current, Shl(buddy, current));
        bits := Toggle(bits, current, buddy / 2);
        block := 2 * block;
      }
      ShrShl(block, order);
    }

    /** pmm_buddy_alloc_locked: succeeds exactly when some aligned run of 2^order frames is
        free, and then removes exactly the returned run from the free set. */
    method Alloc(order: nat) returns (r: Option<nat>)
      requires Valid()
      modifies this
      ensures Valid()
      ensures r.None? ==> unchanged(this)
      ensures r.Some? <==> order <= MAX_ORDER && exists b: nat ::
                InMemory(total, order, b) && BlockFrames(total, order, b) <= old(Free())
      ensures r.Some? ==>
                && r.value == Shl(Shr(r.value, order), order)
                && r.value + Pages(order) <= total
                && Frames(order, r.value) <= old(Free())
                && Free() == old(Free()) - Frames(order, r.value)
                && freePages == old(freePages) - Pages(order)
    {
      if order > MAX_ORDER { return None; }
      var current := FindOrder(order);
      if current > MAX_ORDER { return None; }

      var frame := PopAndSplit(current, order);
      freePages := freePages - Pages(order);
      BlockFramesCount(total, order, Shr(frame, order));
      assert old(Free()) == Free() + Frames(order, frame);
      return Some(frame);
    }

    /** The first block of a list, split down to the order asked for. */
    method PopAndSplit(current: nat, order: nat) returns (frame: nat)
      requires Inv(total, lists, bits) && order <= current <= MAX_ORDER && lists[current] != []
      modifies this`lists, this`bits
      ensures Inv(total, lists, bits) && frame == Shl(Shr(frame, order), order) && frame + Pages(order) <= total
      ensures Frames(order, frame) !! Free() && old(Free()) == Free() + Frames(order, frame)
    {
      frame := lists[current][0];
      var block := Shr(frame, current);
      PopStep(total, lists, bits, current);
      lists := lists[current := lists[current][1..]];
      bits := Toggle(bits, current, block / 2);
      SplitDown(current, block, order);
    }

    /** pmm_buddy_free_locked: merges with free buddies as far as the bits allow and adds
        exactly the released frames to the free set.  Out-of-range requests change nothing. */
    method Release(frame: nat, order: nat)
      requires Inv(total, lists, bits)
      requires order <= MAX_ORDER && frame < total ==>
                 && frame == Shl(Shr(frame, order), order)
                 && frame + Pages(order) <= total
                 && Frames(order, frame) !! Free()
      modifies this`lists, this`bits
      ensures Inv(total, lists, bits)
      ensures order > MAX_ORDER || frame >= total ==> unchanged(this)
      ensures order <= MAX_ORDER && frame < total ==> Free() == old(Free()) + Frames(order, frame)
    {
      if order > MAX_ORDER || frame >= total { return; }
      var o, addr := order, frame;
      var block: nat := Shr(frame, order);
      InMemoryIndex(total, o, block);
      if block >= Blocks(total, o) { return; }
      DisjointIsHeld(total, lists, o, block);

      ghost var before := bits;   // the bits before the last toggle
      while o < MAX_ORDER
        invariant order <= o <= MAX_ORDER
        invariant Inv(total, lists, bits) && before == bits
        invariant Held(lists, o, block) && InMemory(total, o, block) && addr == Shl(block, o)
        invariant Free() + BlockFrames(total, o, block) == old(Free()) + Frames(order, frame)
      {
        var pair := block / 2;
        InMemoryIndex(total, o, block);
        if pair >= (Blocks(total, o) + 1) / 2 { break; }
        bits := Toggle(bits, o, pair);
        if bits[o][pair] { break; }
        MergeStep(total, lists, before, o, block);
        lists := lists[o := Without(lists[o], Shl(Buddy(block), o))];
        block := block / 2;
        o := o + 1;
        addr := ClearBit(addr, o - 1);
        before := bits;
      }
      InMemoryIndex(total, o, block);
      AddStep(total, lists, before, o, block);
      ghost var lists0 := lists;
      lists := Push(lists, o, addr);
      AddedFrames(total, lists0, lists, o, block);
    }

    /** pmm_buddy_free_locked_for_pcp: release and count. */
    method ReleaseCounted(frame: nat, order: nat)
      requires Valid() && order <= MAX_ORDER
      requires frame == Shl(Shr(frame, order), order) && frame + Pages(order) <= total
      requires Frames(order, frame) !! Free()
      modifies this
      ensures Valid() && Free() == old(Free()) + Frames(order, frame)
    {
      ShlPositive(1, order);
      BlockFramesCount(total, order, Shr(frame, order));
      Release(frame, order);
      freePages := freePages + Pages(order);
    }
  }
}
