/** Frame ownership: the per-CPU page stash in front of the buddy allocator, and the
    per-frame reference and pin counts.  Frames are frame numbers (physical address >> 12). */
module Pmm {
  import opened Options
  import opened BuddyCore
  import opened Buddy

  const PCP_DEPTH: nat := 64
  const PCP_REFILL: nat := 32
  const U16_MAX: nat := 0xFFFF
  const U32_MAX: nat := 0xFFFF_FFFF

  // ---------------------------------------------------------------- the ledger

  /** Where a managed frame is: on the buddy free lists, in some CPU's stash, given out,
      leaked (last reference dropped while pinned), or being moved by the running operation.
      The ledger is a map, so each managed frame is in exactly one place. */
  datatype Place = AtBuddy | Stashed | Owned | Leaked | Moving
  type Ledger = map<nat, Place>

  ghost function Elements(s: seq<nat>): set<nat>
  {
    set f | f in s
  }

  ghost function At(l: Ledger, p: Place): set<nat>
  {
    set f | f in l && l[f] == p
  }

  ghost function Move(l: Ledger, s: set<nat>, p: Place): Ledger
  {
    map f | f in l :: if f in s then p else l[f]
  }

  /** Only owned frames carry references (frames being moved may carry stale ones). */
  ghost predicate Counts(l: Ledger, rc: seq<nat>)
  {
    && (forall f | f in l ::
          && f < |rc|
          && (l[f] == Owned ==> rc[f] >= 1)
          && (l[f] != Owned && l[f] != Moving ==> rc[f] == 0))
    && (forall f: nat | f < |rc| && f !in l :: rc[f] == 0)
  }

  predicate Parked(p: Place)
  {
    p == AtBuddy || p == Stashed
  }

  /** Outside `s` frames only move between the free lists and the stashes. */
  ghost predicate Shuffled(l: Ledger, m: Ledger, s: set<nat>)
  {
    && m.Keys == l.Keys
    && forall g | g in l && g !in s :: m[g] == l[g] || (Parked(l[g]) && Parked(m[g]))
  }

  ghost predicate SameExcept(a: seq<nat>, b: seq<nat>, s: set<nat>)
  {
    |a| == |b| && forall f: nat | f < |a| && f !in s :: a[f] == b[f]
  }

  ghost predicate ZeroOn(rc: seq<nat>, s: set<nat>)
  {
    forall f | f in s :: f < |rc| && rc[f] == 0
  }

  ghost predicate OneOn(rc: seq<nat>, s: set<nat>)
  {
    forall f | f in s :: f < |rc| && rc[f] == 1
  }

  lemma MoveSets(l: Ledger, s: set<nat>, p: Place)
    requires s <= l.Keys
    ensures At(Move(l, s, p), AtBuddy) == if p == AtBuddy then At(l, AtBuddy) + s else At(l, AtBuddy) - s
    ensures At(Move(l, s, p), Stashed) == if p == Stashed then At(l, Stashed) + s else At(l, Stashed) - s
    ensures At(Move(l, s, p), Moving) == if p == Moving then At(l, Moving) + s else At(l, Moving) - s
    ensures Move(l, s, p).Keys == l.Keys
  {
  }

  /** Owned frames leave their owner; the free lists and the stashes do not notice. */
  lemma MoveOwned(l: Ledger, s: set<nat>, p: Place)
    requires s <= At(l, Owned) && At(l, Moving) == {} && (p == Leaked || p == Moving)
    ensures var m := Move(l, s, p);
            && At(m, AtBuddy) == At(l, AtBuddy) && At(m, Stashed) == At(l, Stashed)
            && At(m, Moving) == (if p == Moving then s else {}) && m.Keys == l.Keys
  {
    forall f | f in l
      ensures l[f] != Moving
    {
      assert f !in At(l, Moving);
    }
  }

  /** Moving frames keeps the counts right when the counts of the moved frames fit their
      new place. */
  lemma MoveCounts(l: Ledger, rc: seq<nat>, rc': seq<nat>, s: set<nat>, p: Place)
    requires Counts(l, rc) && s <= l.Keys && SameExcept(rc, rc', s)
    requires p == Owned ==> OneOn(rc', s)
    requires p != Owned && p != Moving ==> ZeroOn(rc', s)
    ensures Counts(Move(l, s, p), rc')
  {
  }

  /** The frames in hand go to the free lists or to an owner. */
  lemma HandOver(l: Ledger, rc: seq<nat>, rc': seq<nat>, s: set<nat>, p: Place)
    requires Counts(l, rc) && s <= At(l, Moving) && SameExcept(rc, rc', s)
    requires (p == AtBuddy && ZeroOn(rc', s)) || (p == Owned && OneOn(rc', s))
    ensures var m := Move(l, s, p);
            && At(m, AtBuddy) == (if p == AtBuddy then At(l, AtBuddy) + s else At(l, AtBuddy))
            && At(m, Stashed) == At(l, Stashed) && At(m, Moving) == At(l, Moving) - s && Counts(m, rc')
    ensures s !! At(l, AtBuddy)
  {
    assert s !! At(l, AtBuddy) && s !! At(l, Stashed);
    MoveSets(l, s, p);
    MoveCounts(l, rc, rc', s, p);
  }

  lemma FreeIsUnreferenced(l: Ledger, rc: seq<nat>, s: set<nat>)
    requires Counts(l, rc) && s <= At(l, AtBuddy)
    ensures ZeroOn(rc, s)
  {
    assert forall f | f in s :: f in At(l, AtBuddy);
  }

  lemma MoveTwice(l: Ledger, s: set<nat>, p: Place, q: Place)
    ensures Move(Move(l, s, p), s, q) == Move(l, s, q)
  {
  }

  lemma ReferencedIsOwned(l: Ledger, rc: seq<nat>, f: nat)
    requires Counts(l, rc) && At(l, Moving) == {} && f < |rc| && rc[f] > 0
    ensures f in l && l[f] == Owned
  {
    assert f in l;
    assert f !in At(l, Moving);
  }

  /** One more reference keeps the counts right exactly when there was one and it does not wrap. */
  lemma OneMoreReference(l: Ledger, rc: seq<nat>, rc': seq<nat>, f: nat)
    requires Counts(l, rc) && At(l, Moving) == {} && f < |rc| && rc[f] <= U32_MAX
    requires rc' == rc[f := (rc[f] + 1) % (U32_MAX + 1)]
    ensures Counts(l, rc') <==> 0 < rc[f] < U32_MAX
  {
    assert f in l ==> f !in At(l, Moving);
    if rc[f] > 0 { ReferencedIsOwned(l, rc, f); }
  }

  lemma Donated(l: Ledger, s: set<nat>)
    requires s !! l.Keys && At(l, Moving) == {}
    ensures var m := Move(l + (map f | f in s :: Moving), s, AtBuddy); Donates(l, m, s) && At(m, Moving) == {}
  {
    assert forall f | f in l :: f !in At(l, Moving);
  }

  lemma ReturnedThroughHand(l: Ledger, m: Ledger, s: set<nat>)
    requires s <= At(l, Owned) && At(l, Moving) == {}
    requires Shuffled(Move(l, s, Moving), m, s) && forall f | f in s :: f in m && Parked(m[f])
    ensures Exchanges(l, m, s, {}, {}) && At(m, Moving) == {}
  {
    forall f | f in l
      ensures l[f] != Moving && m[f] != Moving
    {
      assert f !in At(l, Moving);
    }
  }

  lemma BatchGrows(l: Ledger, m: Ledger, batch: seq<nat>, f: nat)
    requires m == Move(l, Elements(batch), Moving) && f in At(m, AtBuddy)
    ensures f !in batch && f in l && l[f] == AtBuddy
    ensures Move(m, {f}, Moving) == Move(l, Elements(batch + [f]), Moving)
  {
    assert Elements(batch + [f]) == Elements(batch) + {f};
  }

  // ---------------------------------------------------------------- the per-CPU stash

  type Stash = seq<seq<nat>>   // per CPU, pcp_pages[0..count)

  function StashFrames(stash: Stash): set<nat>
  {
    set c: nat, i: nat | c < |stash| && i < |stash[c]| :: stash[c][i]
  }

  /** No frame is stashed twice, on one CPU or on two, and no stash overflows. */
  ghost predicate StashOk(stash: Stash)
  {
    && (forall c: nat, i: nat, d: nat, j: nat ::
          c < |stash| && i < |stash[c]| && d < |stash| && j < |stash[d]| && stash[c][i] == stash[d][j]
          ==> c == d && i == j)
    && (forall c: nat | c < |stash| :: |stash[c]| <= PCP_DEPTH)
  }

  function Pushed(stash: Stash, c: nat, f: nat): Stash
    requires c < |stash|
  {
    stash[c := stash[c] + [f]]
  }

  /** The frame stashed last. */
  function Top(s: seq<nat>): nat
    requires s != []
  {
    s[|s| - 1]
  }

  function Popped(stash: Stash, c: nat): Stash
    requires c < |stash| && stash[c] != []
  {
    stash[c := stash[c][..|stash[c]| - 1]]
  }

  function Least(a: nat, b: nat): nat
  {
    if a < b then a else b
  }

  /** What a free leaves of a stash: a full one gives up a batch from its top. */
  function KeptBy(s: seq<nat>): seq<nat>
  {
    if |s| < PCP_DEPTH then s else s[..|s| - PCP_REFILL]
  }

  /** The frames of a batch from `n` on are parked, in the stash if there is room for all. */
  ghost predicate ParkedFrom(l0: Ledger, l: Ledger, batch: seq<nat>, n: nat, room: bool)
  {
    && l.Keys == l0.Keys && n <= |batch|
    && (forall i: nat | n <= i < |batch| :: batch[i] in l && (l[batch[i]] == Stashed || (l[batch[i]] == AtBuddy && !room)))
    && (forall g | g in l && (g !in batch || g in batch[..n]) :: l[g] == l0[g])
  }

  lemma ParkNext(l0: Ledger, l: Ledger, m: Ledger, batch: seq<nat>, n: nat, room: bool)
    requires n < |batch| && NoDuplicates(batch) && ParkedFrom(l0, l, batch, n + 1, room) && batch[n] in l
    requires m == Move(l, {batch[n]}, Stashed) || (m == Move(l, {batch[n]}, AtBuddy) && !room)
    ensures ParkedFrom(l0, m, batch, n, room)
  {
    assert forall g | g in batch[..n] :: g in batch[..n + 1] && g != batch[n];
  }

  /** A batch taken from the free lists of which all but frame `n` were parked. */
  lemma RefillBooks(l0: Ledger, l1: Ledger, l2: Ledger, batch: seq<nat>, n: nat, f: nat)
    requires NoDuplicates(batch) && |batch| == n + 1 && batch[n] == f && At(l0, Moving) == {}
    requires (forall g | g in batch :: g in l0 && l0[g] == AtBuddy) && l1 == Move(l0, Elements(batch), Moving)
    requires l2.Keys == l1.Keys && forall g | g in l2 :: if g in batch[..n] then Parked(l2[g]) else l2[g] == l1[g]
    ensures f in At(l0, AtBuddy) && Shuffled(l0, l2, {f}) && l2[f] == Moving && At(l2, Moving) == {f}
    ensures (forall g | g in batch[..n] :: l2[g] == Stashed) ==> At(l2, AtBuddy) == At(l1, AtBuddy)
  {
    assert forall g | g in batch :: g in batch[..n] || g == f;
    assert f !in batch[..n];
  }

  lemma StashPush(stash: Stash, c: nat, f: nat)
    requires StashOk(stash) && c < |stash| && |stash[c]| < PCP_DEPTH && f !in StashFrames(stash)
    ensures StashOk(Pushed(stash, c, f)) && StashFrames(Pushed(stash, c, f)) == StashFrames(stash) + {f}
  {
    var post := Pushed(stash, c, f);
    forall x | x in StashFrames(stash)
      ensures x in StashFrames(post)
    {
      var d: nat, i: nat :| d < |stash| && i < |stash[d]| && stash[d][i] == x;
      assert post[d][i] == x;
    }
    assert post[c][|stash[c]|] == f;
  }

  lemma StashPop(stash: Stash, c: nat)
    requires StashOk(stash) && c < |stash| && stash[c] != []
    ensures var f := stash[c][|stash[c]| - 1];
            && StashOk(Popped(stash, c))
            && f in StashFrames(stash)
            && StashFrames(Popped(stash, c)) == StashFrames(stash) - {f}
  {
    var f := stash[c][|stash[c]| - 1];
    var post := Popped(stash, c);
    forall x | x in StashFrames(stash) && x != f
      ensures x in StashFrames(post)
    {
      var d: nat, i: nat :| d < |stash| && i < |stash[d]| && stash[d][i] == x;
      assert post[d][i] == x;
    }
  }

  // ---------------------------------------------------------------- blocks as intervals

  /** An aligned block is the interval of `2^order` frames that starts at its first frame. */
  lemma BlockIsInterval(total: nat, order: nat, frame: nat)
    requires frame == Shl(Shr(frame, order), order) && frame + Pages(order) <= total
    ensures forall f: nat :: f in BlockFrames(total, order, Shr(frame, order)) <==> frame <= f < frame + Pages(order)
  {
    var b := Shr(frame, order);
    ShlAdd(b, 1, order);
    forall f: nat
      ensures Shr(f, order) == b <==> frame <= f < frame + Pages(order)
    {
      ShrBounds(f, order);
      if frame <= f < frame + Pages(order) { ShrUnique(f, order, b); }
    }
  }

  /** The frames of an order-0 block. */
  lemma OneFrame(total: nat, f: nat)
    requires f < total
    ensures BlockFrames(total, 0, Shr(f, 0)) == {f} && Pages(0) == 1 && Shl(Shr(f, 0), 0) == f
  {
  }

  datatype Block = Block(frame: nat, order: nat)

  /** An aligned block of the managed range. */
  predicate BlockOk(total: nat, b: Block)
  {
    b.order <= MAX_ORDER && b.frame == Shl(Shr(b.frame, b.order), b.order) && b.frame + Pages(b.order) <= total
  }

  ghost function Covered(total: nat, blocks: seq<Block>): set<nat>
  {
    if blocks == [] then {}
    else var b := blocks[|blocks| - 1];
      Covered(total, blocks[..|blocks| - 1]) + BlockFrames(total, b.order, Shr(b.frame, b.order))
  }

  /** Blocks that do not share a frame. */
  ghost predicate Apart(total: nat, blocks: seq<Block>)
  {
    && (forall i: nat | i < |blocks| :: BlockOk(total, blocks[i]))
    && (forall i: nat | i < |blocks| ::
          BlockFrames(total, blocks[i].order, Shr(blocks[i].frame, blocks[i].order)) !! Covered(total, blocks[..i]))
  }

  /** The empty slabs: blocks that the slab caches own. */
  ghost predicate SlabsOk(total: nat, slabs: seq<Block>, l: Ledger)
  {
    Apart(total, slabs) && Covered(total, slabs) <= At(l, Owned)
  }

  lemma NoSlabs(total: nat, l: Ledger)
    ensures SlabsOk(total, [], l)
  {
  }

  ghost function AllocEvent(total: nat, order: nat, slabs: seq<Block>, r: Option<nat>, shrunk: bool): Event
  {
    Traffic(if shrunk then Covered(total, slabs) else {},
            if r.Some? then BlockFrames(total, order, Shr(r.value, order)) else {}, {})
  }

  lemma {:induction false} CoveredPrefix(total: nat, blocks: seq<Block>, n: nat)
    requires n <= |blocks|
    ensures Covered(total, blocks[..n]) <= Covered(total, blocks)
    ensures n < |blocks| ==>
              BlockFrames(total, blocks[n].order, Shr(blocks[n].frame, blocks[n].order)) <= Covered(total, blocks)
  {
    if n == |blocks| {
      assert blocks[..n] == blocks;
    } else {
      var init := blocks[..|blocks| - 1];
      CoveredPrefix(total, init, n);
      assert init[..n] == blocks[..n];
    }
  }

  /** The next slab is still owned when those before it have gone. */
  lemma NextSlab(total: nat, slabs: seq<Block>, n: nat, l: Ledger, m: Ledger)
    requires SlabsOk(total, slabs, l) && n < |slabs| && m == Move(l, Covered(total, slabs[..n]), AtBuddy)
    ensures var s := BlockFrames(total, slabs[n].order, Shr(slabs[n].frame, slabs[n].order));
            && BlockOk(total, slabs[n]) && s <= At(m, Owned)
            && Move(m, s, AtBuddy) == Move(l, Covered(total, slabs[..n + 1]), AtBuddy)
  {
    var s := BlockFrames(total, slabs[n].order, Shr(slabs[n].frame, slabs[n].order));
    CoveredPrefix(total, slabs, n);
    assert slabs[..n + 1][..n] == slabs[..n];
    assert s !! Covered(total, slabs[..n]);
    assert forall f | f in s :: f in At(l, Owned);
  }

  lemma SlabsAreOwned(total: nat, slabs: seq<Block>, l: Ledger)
    requires SlabsOk(total, slabs, l)
    ensures Exchanges(l, Move(l, Covered(total, slabs), AtBuddy), Covered(total, slabs), {}, {})
  {
    assert forall f | f in Covered(total, slabs) :: f in At(l, Owned);
  }

  /** A block leaves the free lists after the frames of `taken` were put there. */
  ghost predicate HandsOut(l: Ledger, taken: set<nat>, given: set<nat>, m: Ledger)
  {
    var shrunk := Move(l, taken, AtBuddy);
    given <= At(shrunk, AtBuddy) && m == Move(shrunk, given, Moving) && At(m, Moving) == given
  }

  lemma HandedOut(l: Ledger, taken: set<nat>, given: set<nat>, m: Ledger)
    requires At(l, Moving) == {} && given <= At(Move(l, taken, AtBuddy), AtBuddy)
    requires m == Move(if taken == {} then l else Move(l, taken, AtBuddy), given, Moving)
    ensures HandsOut(l, taken, given, m)
  {
    assert taken == {} ==> Move(l, taken, AtBuddy) == l;
    assert forall f | f in l :: f !in At(l, Moving);
  }

  lemma GivenAfterShrink(l: Ledger, taken: set<nat>, given: set<nat>, m: Ledger)
    requires taken <= At(l, Owned) && HandsOut(l, taken, given, m)
    ensures Exchanges(l, Move(m, given, Owned), taken, given, {}) && At(Move(m, given, Owned), Moving) == {}
  {
    assert forall f | f in taken :: f in At(l, Owned);
    assert forall f | f in given :: f in At(Move(l, taken, AtBuddy), AtBuddy);
    assert forall f | f in m && f !in given :: f !in At(m, Moving);
  }

  class PageAllocator {
    const buddy: BuddyAllocator
    const refcount: array<nat>
    const pincount: array<nat>
    var stash: Stash
    ghost var ledger: Ledger

    ghost predicate Valid()
      reads this, buddy, refcount, pincount
    {
      && buddy.Valid()
      && refcount != pincount && refcount.Length == pincount.Length == buddy.total
      && StashOk(stash)
      && buddy.Free() == At(ledger, AtBuddy)
      && StashFrames(stash) == At(ledger, Stashed)
      && Counts(ledger, refcount[..])
      && forall f: nat | f < refcount.Length :: refcount[f] <= U32_MAX
    }

    /** No operation is under way. */
    ghost predicate Idle()
      reads this, buddy, refcount, pincount
    {
      Valid() && At(ledger, Moving) == {}
    }

    /** All memory starts outside the allocator. */
    constructor (total: nat, cpus: nat)
      ensures Valid() && buddy.total == total && |stash| == cpus && ledger == map[]
      ensures fresh(buddy) && fresh(refcount) && fresh(pincount)
    {
      buddy := new BuddyAllocator(total);
      refcount := new nat[total](i => 0);
      pincount := new nat[total](i => 0);
      stash := seq(cpus, c => []);
      ledger := map[];
      new;
      assert StashFrames(stash) == {};
      assert At(ledger, AtBuddy) == At(ledger, Stashed) == {};
    }

    /** pmm_buddy_alloc_locked */
    method AllocLocked(order: nat) returns (r: Option<nat>)
      requires Valid()
      modifies this`ledger, buddy
      ensures Valid()
      ensures r.Some? <==> order <= MAX_ORDER && exists b: nat ::
                InMemory(buddy.total, order, b) && BlockFrames(buddy.total, order, b) <= At(old(ledger), AtBuddy)
      ensures r.None? ==> ledger == old(ledger)
      ensures r.Some? ==>
                && r.value == Shl(Shr(r.value, order), order)
                && r.value + Pages(order) <= buddy.total
                && var s := buddy.Frames(order, r.value);
                  && s <= At(old(ledger), AtBuddy) && ZeroOn(refcount[..], s)
                  && ledger == Move(old(ledger), s, Moving)
    {
      r := buddy.Alloc(order);
      if r.Some? {
        FreeIsUnreferenced(ledger, refcount[..], buddy.Frames(order, r.value));
        MoveSets(ledger, buddy.Frames(order, r.value), Moving);
        MoveCounts(ledger, refcount[..], refcount[..], buddy.Frames(order, r.value), Moving);
        ledger := Move(ledger, buddy.Frames(order, r.value), Moving);
      }
    }

    /** Zeroes the reference counts of a block. */
    method ClearReferences(frame: nat, order: nat)
      requires refcount.Length == buddy.total
      requires frame == Shl(Shr(frame, order), order) && frame + Pages(order) <= buddy.total
      modifies refcount
      ensures SameExcept(old(refcount[..]), refcount[..], buddy.Frames(order, frame))
      ensures ZeroOn(refcount[..], buddy.Frames(order, frame))
    {
      BlockIsInterval(buddy.total, order, frame);
      var n := Pages(order);
      var k := 0;
      while k < n
        invariant 0 <= k <= n
        invariant forall f: nat | f < refcount.Length ::
          refcount[f] == if frame <= f < frame + k then 0 else old(refcount[f])
      {
        refcount[frame + k] := 0;
        k := k + 1;
      }
    }

    /** pmm_buddy_free_locked followed by the free-page count: drop the references of the
        whole block, then give it to the buddy allocator. */
    method FreeLocked(frame: nat, order: nat)
      requires Valid() && order <= MAX_ORDER
      requires frame == Shl(Shr(frame, order), order) && frame + Pages(order) <= buddy.total
      requires buddy.Frames(order, frame) <= At(ledger, Moving)
      modifies this`ledger, buddy, refcount
      ensures Valid()
      ensures ledger == Move(old(ledger), buddy.Frames(order, frame), AtBuddy)
      ensures SameExcept(old(refcount[..]), refcount[..], buddy.Frames(order, frame))
    {
      ghost var s, rc := buddy.Frames(order, frame), refcount[..];
      ClearReferences(frame, order);
      HandOver(ledger, rc, refcount[..], s, AtBuddy);
      buddy.ReleaseCounted(frame, order);
      ledger := Move(ledger, s, AtBuddy);
    }

    /** The frames of a boot block come under management, in the hands of the running operation. */
    ghost method Admit(s: set<nat>)
      requires Idle() && s !! ledger.Keys && forall f | f in s :: f < buddy.total
      modifies this`ledger
      ensures Valid() && ledger == old(ledger) + (map f | f in s :: Moving) && At(ledger, Moving) == s
    {
      ghost var l := ledger;
      ledger := ledger + (map f | f in s :: Moving);
      assert At(ledger, AtBuddy) == At(l, AtBuddy) && At(ledger, Stashed) == At(l, Stashed);
      assert forall f | f in l :: f !in At(l, Moving);
    }

    /** The boot loop's pmm_buddy_free_locked: usable memory enters the free lists. */
    method Donate(frame: nat, order: nat)
      requires Idle() && BlockOk(buddy.total, Block(frame, order)) && buddy.Frames(order, frame) !! ledger.Keys
      modifies this`ledger, buddy, refcount
      ensures Idle() && Step(old(ledger), Donation(buddy.Frames(order, frame)), ledger)
    {
      ghost var s := buddy.Frames(order, frame);
      Donated(ledger, s);
      Admit(s);
      FreeLocked(frame, order);
    }

    /** pcp_drain_one: the top `howMany` frames of a stash go back to the buddy allocator. */
    method DrainOne(c: nat, howMany: nat)
      requires Valid() && c < |stash|
      modifies this, buddy, refcount
      ensures Valid() && |stash| == |old(stash)|
      ensures stash[c] == if howMany >= |old(stash[c])| then [] else old(stash[c])[..|old(stash[c])| - howMany]
      ensures forall d: nat | d < |stash| && d != c :: stash[d] == old(stash[d])
      ensures Shuffled(old(ledger), ledger, {})
      ensures refcount[..] == old(refcount[..])
    {
      var n := 0;
      while n < howMany && stash[c] != []
        invariant n <= howMany && |stash| == |old(stash)| && n <= |old(stash[c])| && stash[c] == old(stash[c])[..|old(stash[c])| - n]
        invariant Valid()
        invariant forall d: nat | d < |stash| && d != c :: stash[d] == old(stash[d])
        invariant Shuffled(old(ledger), ledger, {})
        invariant refcount[..] == old(refcount[..])
      {
        DrainTop(c);
        n := n + 1;
      }
    }

    /** One frame from the top of a stash to the buddy allocator. */
    method DrainTop(c: nat)
      requires Valid() && c < |stash| && stash[c] != []
      modifies this, buddy, refcount
      ensures Valid() && stash == Popped(old(stash), c)
      ensures Shuffled(old(ledger), ledger, {})
      ensures refcount[..] == old(refcount[..])
    {
      var f := Pop(c);
      ghost var rc := refcount[..];
      OneFrame(buddy.total, f);
      FreeLocked(f, 0);
      assert refcount[..] == rc;
    }

    method Pop(c: nat) returns (f: nat)
      requires Valid() && c < |stash| && stash[c] != []
      modifies this
      ensures Valid() && stash == Popped(old(stash), c)
      ensures f == Top(old(stash[c])) && f in old(ledger) && old(ledger)[f] == Stashed && f < buddy.total && refcount[f] == 0
      ensures ledger == Move(old(ledger), {f}, Moving)
    {
      f := stash[c][|stash[c]| - 1];
      StashPop(stash, c);
      assert f in At(ledger, Stashed);
      MoveSets(ledger, {f}, Moving);
      MoveCounts(ledger, refcount[..], refcount[..], {f}, Moving);
      stash := Popped(stash, c);
      ledger := Move(ledger, {f}, Moving);
    }

    method PushFrame(c: nat, f: nat)
      requires Valid() && c < |stash| && |stash[c]| < PCP_DEPTH
      requires f in ledger && ledger[f] == Moving && refcount[f] == 0
      modifies this
      ensures Valid() && stash == Pushed(old(stash), c, f)
      ensures ledger == Move(old(ledger), {f}, Stashed)
    {
      StashPush(stash, c, f);
      MoveSets(ledger, {f}, Stashed);
      MoveCounts(ledger, refcount[..], refcount[..], {f}, Stashed);
      stash := Pushed(stash, c, f);
      ledger := Move(ledger, {f}, Stashed);
    }

    /** Takes up to `want` single frames from the buddy allocator. */
    method TakeBatch(want: nat) returns (batch: seq<nat>)
      requires Valid()
      modifies this`ledger, buddy
      ensures Valid() && |batch| <= want && NoDuplicates(batch)
      ensures batch == [] ==> want == 0 || At(old(ledger), AtBuddy) == {}
      ensures |batch| == want || At(ledger, AtBuddy) == {}
      ensures forall f | f in batch :: f in old(ledger) && old(ledger)[f] == AtBuddy
      ensures ledger == Move(old(ledger), Elements(batch), Moving)
    {
      batch := [];
      assert ledger == Move(ledger, Elements(batch), Moving);
      while |batch| < want
        invariant Valid() && |batch| <= want && NoDuplicates(batch)
        invariant forall f | f in batch :: f in old(ledger) && old(ledger)[f] == AtBuddy
        invariant ledger == Move(old(ledger), Elements(batch), Moving)
        decreases want - |batch|
      {
        ghost var before := ledger;
        var p := TakeFrame();
        if p.None? { return; }
        BatchGrows(old(ledger), before, batch, p.value);
        batch := batch + [p.value];
      }
    }

    /** One frame from the buddy allocator; none only when no frame is free. */
    method TakeFrame() returns (p: Option<nat>)
      requires Valid()
      modifies this`ledger, buddy
      ensures Valid()
      ensures p.None? ==> ledger == old(ledger) && At(ledger, AtBuddy) == {}
      ensures p.Some? ==> p.value in At(old(ledger), AtBuddy) && ledger == Move(old(ledger), {p.value}, Moving)
    {
      forall f | f in At(ledger, AtBuddy)
        ensures InMemory(buddy.total, 0, f) && BlockFrames(buddy.total, 0, f) <= At(ledger, AtBuddy)
      {
        FreeFrameIsRun(f);
      }
      p := AllocLocked(0);
      if p.Some? { OneFrame(buddy.total, p.value); }
    }

    /** A free frame is by itself a free aligned run. */
    lemma FreeFrameIsRun(f: nat)
      requires Valid() && f in At(ledger, AtBuddy)
      ensures InMemory(buddy.total, 0, f) && BlockFrames(buddy.total, 0, f) <= At(ledger, AtBuddy)
    {
      assert f in buddy.Free();
      OneFrame(buddy.total, f);
    }

    /** A frame being moved is stashed if there is room, else freed. */
    method ParkOne(c: nat, f: nat)
      requires Valid() && c < |stash|
      requires f in ledger && ledger[f] == Moving && refcount[f] == 0
      modifies this, buddy, refcount
      ensures Valid() && |stash| == |old(stash)|
      ensures stash == if |old(stash[c])| < PCP_DEPTH then Pushed(old(stash), c, f) else old(stash)
      ensures ledger == Move(old(ledger), {f}, if |old(stash[c])| < PCP_DEPTH then Stashed else AtBuddy)
      ensures refcount[..] == old(refcount[..])
    {
      if |stash[c]| < PCP_DEPTH {
        PushFrame(c, f);
      } else {
        OneFrame(buddy.total, f);
        ghost var rc := refcount[..];
        FreeLocked(f, 0);
        assert refcount[..] == rc;
      }
    }

    /** Every frame of a batch being moved is parked, last one first. */
    method ParkBatch(c: nat, batch: seq<nat>)
      requires Valid() && c < |stash| && NoDuplicates(batch)
      requires forall f | f in batch :: f in ledger && ledger[f] == Moving && refcount[f] == 0
      modifies this, buddy, refcount
      ensures Valid() && |stash| == |old(stash)|
      ensures ledger.Keys == old(ledger).Keys
      ensures forall g | g in ledger :: if g in batch then Parked(ledger[g]) else ledger[g] == old(ledger)[g]
      ensures forall d: nat | d < |stash| && d != c :: stash[d] == old(stash[d])
      ensures |stash[c]| == Least(|old(stash[c])| + |batch|, PCP_DEPTH)
      ensures |old(stash[c])| + |batch| <= PCP_DEPTH ==> forall g | g in batch :: ledger[g] == Stashed
      ensures refcount[..] == old(refcount[..])
    {
      var n: nat := |batch|;
      while n > 0
        invariant n <= |batch| && Valid() && |stash| == |old(stash)|
        invariant ParkedFrom(old(ledger), ledger, batch, n, |old(stash[c])| + |batch| <= PCP_DEPTH)
        invariant forall d: nat | d < |stash| && d != c :: stash[d] == old(stash[d])
        invariant |stash[c]| == Least(|old(stash[c])| + (|batch| - n), PCP_DEPTH)
        invariant refcount[..] == old(refcount[..])
      {
        n := n - 1;
        ghost var l := ledger;
        ParkOne(c, batch[n]);
        ParkNext(old(ledger), l, ledger, batch, n, |old(stash[c])| + |batch| <= PCP_DEPTH);
      }
    }

    /** pcp_refill_one: one frame for the caller and the rest of a batch for an empty stash. */
    method RefillOne(c: nat) returns (r: Option<nat>)
      requires Idle() && c < |stash|
      modifies this, buddy, refcount
      ensures Valid() && |stash| == |old(stash)| && refcount[..] == old(refcount[..])
      ensures forall d: nat | d < |stash| && d != c :: stash[d] == old(stash[d])
      ensures r.None? ==> At(old(ledger), AtBuddy) == {} && ledger == old(ledger) && stash == old(stash)
      ensures r.Some? && old(stash[c]) == [] ==> |stash[c]| == PCP_REFILL - 1 || At(ledger, AtBuddy) == {}
      ensures r.Some? ==>
                && r.value in At(old(ledger), AtBuddy)
                && Shuffled(old(ledger), ledger, {r.value})
                && ledger[r.value] == Moving && At(ledger, Moving) == {r.value}
    {
      var batch := TakeBatch(PCP_REFILL);
      if batch == [] { return None; }
      var n := |batch| - 1;
      var f := batch[n];
      assert forall g | g in batch[..n] :: g in batch && g != f;
      ghost var taken := ledger;
      ParkBatch(c, batch[..n]);
      RefillBooks(old(ledger), taken, ledger, batch, n, f);
      return Some(f);
    }

    /** pcp_alloc */
    method PcpAlloc(c: nat) returns (r: Option<nat>)
      requires Idle() && c < |stash|
      modifies this, buddy, refcount
      ensures Valid() && |stash| == |old(stash)| && refcount[..] == old(refcount[..])
      ensures forall d: nat | d < |stash| && d != c :: stash[d] == old(stash[d])
      ensures r.None? <==> old(stash[c]) == [] && At(old(ledger), AtBuddy) == {}
      ensures r.None? ==> ledger == old(ledger)
      ensures old(stash[c]) != [] ==> r == Some(Top(old(stash[c]))) && stash == Popped(old(stash), c)
      ensures old(stash[c]) == [] && r.Some? ==> |stash[c]| == PCP_REFILL - 1 || At(ledger, AtBuddy) == {}
      ensures r.Some? ==>
                && r.value in old(ledger) && Parked(old(ledger)[r.value])
                && Shuffled(old(ledger), ledger, {r.value})
                && ledger[r.value] == Moving && At(ledger, Moving) == {r.value}
    {
      if stash[c] == [] {
        r := RefillOne(c);
      } else {
        var f := Pop(c);
        return Some(f);
      }
    }

    /** pcp_free */
    method PcpFree(c: nat, f: nat)
      requires Valid() && c < |stash| && f in ledger && ledger[f] == Moving
      modifies this, buddy, refcount
      ensures Valid() && |stash| == |old(stash)| && forall d: nat | d < |stash| && d != c :: stash[d] == old(stash[d])
      ensures stash[c] == KeptBy(old(stash[c])) + [f]
      ensures Shuffled(old(ledger), ledger, {f}) && ledger[f] == Stashed
    {
      refcount[f] := 0;
      MakeRoom(c, f);
      PushFrame(c, f);
    }

    /** The loop of pcp_free: a full stash gives up a batch. */
    method MakeRoom(c: nat, ghost f: nat)
      requires Valid() && c < |stash| && f in ledger && ledger[f] == Moving && refcount[f] == 0
      modifies this, buddy, refcount
      ensures Valid() && |stash| == |old(stash)| && forall d: nat | d < |stash| && d != c :: stash[d] == old(stash[d])
      ensures stash[c] == KeptBy(old(stash[c])) && |stash[c]| < PCP_DEPTH
      ensures Shuffled(old(ledger), ledger, {}) && ledger[f] == Moving && refcount[f] == 0
    {
      while |stash[c]| >= PCP_DEPTH
        invariant Valid() && |stash| == |old(stash)| && forall d: nat | d < |stash| && d != c :: stash[d] == old(stash[d])
        invariant KeptBy(stash[c]) == KeptBy(old(stash[c]))
        invariant Shuffled(old(ledger), ledger, {}) && ledger[f] == Moving && refcount[f] == 0
        decreases |stash[c]|
      {
        DrainOne(c, PCP_REFILL);
      }
    }

    /** pmm_mark_allocated: stamp each frame of the block with one reference; `clash` is the
        double-allocation report. */
    method MarkAllocated(frame: nat, order: nat) returns (clash: bool)
      requires Valid()
      requires frame == Shl(Shr(frame, order), order) && frame + Pages(order) <= buddy.total
      requires buddy.Frames(order, frame) <= At(ledger, Moving)
      modifies this`ledger, refcount
      ensures Valid() && ledger == Move(old(ledger), buddy.Frames(order, frame), Owned)
      ensures OneOn(refcount[..], buddy.Frames(order, frame))
      ensures clash <==> !ZeroOn(old(refcount[..]), buddy.Frames(order, frame))
    {
      ghost var s, rc := buddy.Frames(order, frame), refcount[..];
      clash := StampReferences(frame, order);
      HandOver(ledger, rc, refcount[..], s, Owned);
      ledger := Move(ledger, s, Owned);
    }

    method StampReferences(frame: nat, order: nat) returns (clash: bool)
      requires refcount.Length == buddy.total
      requires frame == Shl(Shr(frame, order), order) && frame + Pages(order) <= buddy.total
      modifies refcount
      ensures SameExcept(old(refcount[..]), refcount[..], buddy.Frames(order, frame))
      ensures OneOn(refcount[..], buddy.Frames(order, frame))
      ensures clash <==> !ZeroOn(old(refcount[..]), buddy.Frames(order, frame))
    {
      BlockIsInterval(buddy.total, order, frame);
      var n := Pages(order);
      clash := false;
      var k := 0;
      while k < n
        invariant 0 <= k <= n
        invariant forall f: nat | f < refcount.Length ::
          refcount[f] == if frame <= f < frame + k then 1 else old(refcount[f])
        invariant clash <==> exists f: nat :: frame <= f < frame + k && old(refcount[f]) != 0
      {
        var prev := refcount[frame + k];
        refcount[frame + k] := 1;
        if prev != 0 { clash := true; }
        k := k + 1;
      }
    }

    /** pmm_slab_release_to_buddy_locked and the multi-page pmm_buddy_free: an owned block goes to
        the free lists. */
    method ReleaseOwned(frame: nat, order: nat)
      requires Idle() && BlockOk(buddy.total, Block(frame, order)) && buddy.Frames(order, frame) <= At(ledger, Owned)
      modifies this`ledger, buddy, refcount
      ensures Idle() && ledger == Move(old(ledger), buddy.Frames(order, frame), AtBuddy)
    {
      ghost var s, l := buddy.Frames(order, frame), ledger;
      Surrender(s);
      FreeLocked(frame, order);
      MoveTwice(l, s, Moving, AtBuddy);
      MoveSets(l, s, AtBuddy);
    }

    /** pmm_slab_shrink_all_locked: every empty slab goes to the free lists. */
    method Reclaim(slabs: seq<Block>)
      requires Idle() && SlabsOk(buddy.total, slabs, ledger)
      modifies this`ledger, buddy, refcount
      ensures Idle() && ledger == Move(old(ledger), Covered(buddy.total, slabs), AtBuddy)
    {
      var n := 0;
      assert slabs[..0] == [];
      assert ledger == Move(ledger, {}, AtBuddy);
      while n < |slabs|
        invariant n <= |slabs| && Idle() && ledger == Move(old(ledger), Covered(buddy.total, slabs[..n]), AtBuddy)
      {
        NextSlab(buddy.total, slabs, n, old(ledger), ledger);
        ReleaseOwned(slabs[n].frame, slabs[n].order);
        n := n + 1;
      }
      assert slabs[..n] == slabs;
    }

    /** pmm_buddy_alloc: whatever is handed out was free, stashed or in an empty slab, now has one
        owner, and the double-allocation report never fires.  `slabs` are the empty slabs. */
    method BuddyAlloc(c: nat, order: nat, slabs: seq<Block>) returns (r: Option<nat>, clash: bool, shrunk: bool)
      requires Idle() && c < |stash| && SlabsOk(buddy.total, slabs, ledger)
      modifies this, buddy, refcount
      ensures Idle() && |stash| == |old(stash)| && !clash
      ensures Step(old(ledger), AllocEvent(buddy.total, order, slabs, r, shrunk), ledger)
      ensures r.None? ==> shrunk && (order == 0 ==> old(stash[c]) == [])
      ensures order == 0 && old(stash[c]) != [] ==> r == Some(Top(old(stash[c]))) && !shrunk && stash == Popped(old(stash), c)
      ensures order > 0 ==> stash == old(stash)
      ensures shrunk && order <= MAX_ORDER ==> forall b: nat :: InMemory(buddy.total, order, b) ==>
                !(BlockFrames(buddy.total, order, b) <= At(old(ledger), AtBuddy))
      ensures r.None? && order <= MAX_ORDER ==> forall b: nat :: InMemory(buddy.total, order, b) ==>
                !(BlockFrames(buddy.total, order, b) <= At(ledger, AtBuddy))
      ensures r.Some? ==> BlockOk(buddy.total, Block(r.value, order)) && OneOn(refcount[..], buddy.Frames(order, r.value))
    {
      shrunk := false;
      if order == 0 {
        r := PcpAlloc(c);
        if r.Some? {
          OneFrame(buddy.total, r.value);
          clash := MarkAllocated(r.value, 0);
          return;
        }
      }
      r, clash, shrunk := AllocSlow(order, slabs);
    }

    /** The part of pmm_buddy_alloc under the lock. */
    method AllocSlow(order: nat, slabs: seq<Block>) returns (r: Option<nat>, clash: bool, shrunk: bool)
      requires Idle() && SlabsOk(buddy.total, slabs, ledger)
      modifies this`ledger, buddy, refcount
      ensures Idle() && !clash
      ensures Step(old(ledger), AllocEvent(buddy.total, order, slabs, r, shrunk), ledger)
      ensures r.None? ==> shrunk
      ensures shrunk && order <= MAX_ORDER ==> forall b: nat :: InMemory(buddy.total, order, b) ==>
                !(BlockFrames(buddy.total, order, b) <= At(old(ledger), AtBuddy))
      ensures r.None? && order <= MAX_ORDER ==> forall b: nat :: InMemory(buddy.total, order, b) ==>
                !(BlockFrames(buddy.total, order, b) <= At(ledger, AtBuddy))
      ensures r.Some? ==> BlockOk(buddy.total, Block(r.value, order)) && OneOn(refcount[..], buddy.Frames(order, r.value))
    {
      clash := false;
      ghost var taken;
      r, shrunk, taken := TakeBlock(order, slabs);
      if r.Some? {
        GivenAfterShrink(old(ledger), taken, buddy.Frames(order, r.value), ledger);
        clash := MarkAllocated(r.value, order);
      }
    }

    /** The two attempts of pmm_buddy_alloc: the second comes after the empty slabs were given back. */
    method TakeBlock(order: nat, slabs: seq<Block>) returns (r: Option<nat>, shrunk: bool, ghost taken: set<nat>)
      requires Idle() && SlabsOk(buddy.total, slabs, ledger)
      modifies this`ledger, buddy, refcount
      ensures Valid() && taken == (if shrunk then Covered(buddy.total, slabs) else {})
      ensures taken <= At(old(ledger), Owned)
      ensures shrunk && order <= MAX_ORDER ==> forall b: nat :: InMemory(buddy.total, order, b) ==>
                !(BlockFrames(buddy.total, order, b) <= At(old(ledger), AtBuddy))
      ensures r.None? ==> shrunk && Idle() && Exchanges(old(ledger), ledger, taken, {}, {})
      ensures r.None? && order <= MAX_ORDER ==> forall b: nat :: InMemory(buddy.total, order, b) ==>
                !(BlockFrames(buddy.total, order, b) <= At(ledger, AtBuddy))
      ensures r.Some? ==> BlockOk(buddy.total, Block(r.value, order)) && ZeroOn(refcount[..], buddy.Frames(order, r.value))
                          && HandsOut(old(ledger), taken, buddy.Frames(order, r.value), ledger)
    {
      shrunk, taken := false, {};
      r := AllocLocked(order);
      if r.None? {
        SlabsAreOwned(buddy.total, slabs, ledger);
        shrunk, taken := true, Covered(buddy.total, slabs);
        Reclaim(slabs);
        r := AllocLocked(order);
      }
      if r.Some? { HandedOut(old(ledger), taken, buddy.Frames(order, r.value), ledger); }
    }

    /** pmm_buddy_free: the owner gives a whole block back. */
    method BuddyFree(c: nat, frame: nat, order: nat)
      requires Idle() && c < |stash| && BlockOk(buddy.total, Block(frame, order))
      requires buddy.Frames(order, frame) <= At(ledger, Owned)
      modifies this, buddy, refcount
      ensures Idle() && |stash| == |old(stash)|
      ensures Step(old(ledger), Traffic(buddy.Frames(order, frame), {}, {}), ledger)
      ensures order == 0 ==> stash[c] != [] && Top(stash[c]) == frame && ledger[frame] == Stashed
      ensures order > 0 ==> ledger == Move(old(ledger), buddy.Frames(order, frame), AtBuddy) && stash == old(stash)
    {
      if order == 0 {
        FreeSingle(c, frame);
      } else {
        ReleaseOwned(frame, order);
      }
    }

    /** A single frame goes through the stash of the processor. */
    method FreeSingle(c: nat, frame: nat)
      requires Idle() && c < |stash| && BlockOk(buddy.total, Block(frame, 0))
      requires buddy.Frames(0, frame) <= At(ledger, Owned)
      modifies this, buddy, refcount
      ensures Idle() && |stash| == |old(stash)|
      ensures Step(old(ledger), Traffic(buddy.Frames(0, frame), {}, {}), ledger)
      ensures stash[c] != [] && Top(stash[c]) == frame && ledger[frame] == Stashed
    {
      ghost var s, l := buddy.Frames(0, frame), ledger;
      Surrender(s);
      OneFrame(buddy.total, frame);
      PcpFree(c, frame);
      ReturnedThroughHand(l, ledger, s);
    }

    /** A single frame that was given back is what the same processor gets next. */
    method FreeThenAlloc(c: nat, frame: nat) returns (r: Option<nat>)
      requires Idle() && c < |stash| && BlockOk(buddy.total, Block(frame, 0)) && buddy.Frames(0, frame) <= At(ledger, Owned)
      modifies this, buddy, refcount
      ensures Idle() && r == Some(frame)
    {
      BuddyFree(c, frame, 0);
      var clash, shrunk;
      NoSlabs(buddy.total, ledger);
      r, clash, shrunk := BuddyAlloc(c, 0, []);
    }

    /** pmm_ref_inc: a further owner of a frame.  The report fires exactly on a frame without
        references; the count goes up all the same, and ownership is right afterwards exactly when
        the frame had an owner and the 32-bit count did not wrap. */
    method RefInc(f: nat) returns (report: bool)
      requires Idle()
      modifies refcount
      ensures forall g: nat | g < buddy.total && g != f :: refcount[g] == old(refcount[g])
      ensures f < buddy.total ==> refcount[f] == (old(refcount[f]) + 1) % (U32_MAX + 1)
      ensures report <==> f < buddy.total && old(refcount[f]) == 0
      ensures Idle() <==> f >= buddy.total || 0 < old(refcount[f]) < U32_MAX
    {
      report := false;
      if f >= buddy.total { return; }
      ghost var rc := refcount[..];
      if refcount[f] == 0 { report := true; }
      refcount[f] := (refcount[f] + 1) % (U32_MAX + 1);
      OneMoreReference(ledger, rc, refcount[..], f);
    }

    /** pmm_ref_dec: the last reference frees the frame, or leaks it while it is pinned; a
        frame without references is left alone. */
    method RefDec(f: nat)
      requires Idle()
      modifies this`ledger, buddy, refcount
      ensures Idle()
      ensures forall g: nat | g < buddy.total && g != f :: refcount[g] == old(refcount[g])
      ensures f < buddy.total ==> refcount[f] == if old(refcount[f]) == 0 then 0 else old(refcount[f]) - 1
      ensures ledger == if f < buddy.total && old(refcount[f]) == 1
                        then Move(old(ledger), {f}, if old(pincount[f]) > 0 then Leaked else AtBuddy)
                        else old(ledger)
      ensures Step(old(ledger), Traffic(if f < buddy.total && old(refcount[f]) == 1 then {f} else {}, {},
                                        if f < buddy.total && old(refcount[f]) == 1 && old(pincount[f]) > 0 then {f} else {}), ledger)
    {
      if f >= buddy.total { return; }
      if refcount[f] == 0 { return; }
      ReferencedIsOwned(ledger, refcount[..], f);
      if refcount[f] == 1 {
        DropLast(f);
      } else {
        refcount[f] := refcount[f] - 1;
      }
    }

    /** The last reference of a frame goes away. */
    method DropLast(f: nat)
      requires Idle() && f in ledger && ledger[f] == Owned && refcount[f] == 1
      modifies this`ledger, buddy, refcount
      ensures Idle()
      ensures SameExcept(old(refcount[..]), refcount[..], {f}) && refcount[f] == 0
      ensures ledger == Move(old(ledger), {f}, if old(pincount[f]) > 0 then Leaked else AtBuddy)
    {
      ghost var l := ledger;
      if pincount[f] > 0 {
        Detach(f, Leaked);
      } else {
        Detach(f, Moving);
        OneFrame(buddy.total, f);
        FreeLocked(f, 0);
        MoveTwice(l, {f}, Moving, AtBuddy);
        MoveSets(l, {f}, AtBuddy);
      }
    }

    method Detach(f: nat, ghost p: Place)
      requires Idle() && f in ledger && ledger[f] == Owned && refcount[f] == 1
      requires p == Leaked || p == Moving
      modifies this`ledger, refcount
      ensures Valid() && ledger == Move(old(ledger), {f}, p) && At(ledger, Moving) <= {f}
      ensures SameExcept(old(refcount[..]), refcount[..], {f}) && refcount[f] == 0
    {
      ghost var rc, l := refcount[..], ledger;
      ledger := Move(ledger, {f}, p);
      refcount[f] := refcount[f] - 1;
      MoveOwned(l, {f}, p);
      MoveCounts(l, rc, refcount[..], {f}, p);
    }

    /** The owner of `s` hands it to the running operation. */
    ghost method Surrender(s: set<nat>)
      requires Idle() && s <= At(ledger, Owned)
      modifies this`ledger
      ensures Valid() && ledger == Move(old(ledger), s, Moving) && At(ledger, Moving) == s
    {
      ghost var l := ledger;
      ledger := Move(ledger, s, Moving);
      MoveOwned(l, s, Moving);
      MoveCounts(l, refcount[..], refcount[..], s, Moving);
    }

    /** pmm_pin; the count has 16 bits. */
    method Pin(f: nat)
      requires Idle()
      modifies pincount
      ensures Idle()
      ensures forall g: nat | g < buddy.total ::
                pincount[g] == if g == f then (old(pincount[g]) + 1) % (U16_MAX + 1) else old(pincount[g])
    {
      if f >= buddy.total { return; }
      pincount[f] := (pincount[f] + 1) % (U16_MAX + 1);
    }

    /** pmm_unpin */
    method Unpin(f: nat)
      requires Idle()
      modifies pincount
      ensures Idle()
      ensures forall g: nat | g < buddy.total ::
                pincount[g] == if g == f && old(pincount[g]) > 0 then old(pincount[g]) - 1 else old(pincount[g])
    {
      if f >= buddy.total { return; }
      if pincount[f] > 0 { pincount[f] := pincount[f] - 1; }
    }

    /** pcp_drain_all, as one atomic step. */
    method DrainAll()
      requires Idle()
      modifies this, buddy, refcount
      ensures Idle() && Step(old(ledger), Traffic({}, {}, {}), ledger) && |stash| == |old(stash)|
      ensures forall d: nat | d < |stash| :: stash[d] == []
      ensures refcount[..] == old(refcount[..])
    {
      var c := 0;
      while c < |stash|
        invariant Valid() && 0 <= c <= |stash| == |old(stash)|
        invariant Shuffled(old(ledger), ledger, {})
        invariant forall d: nat | d < c :: stash[d] == []
        invariant refcount[..] == old(refcount[..])
      {
        DrainOne(c, |stash[c]|);
        c := c + 1;
      }
    }

    /** Every frame of a block has a reference: the caller may give it back. */
    predicate Referenced(b: Block)
      requires BlockOk(buddy.total, b) && refcount.Length == buddy.total
      reads refcount
    {
      forall f: nat | b.frame <= f < b.frame + Pages(b.order) :: refcount[f] > 0
    }

    lemma ReferencedBlockIsOwned(b: Block)
      requires Idle() && BlockOk(buddy.total, b) && Referenced(b)
      ensures buddy.Frames(b.order, b.frame) <= At(ledger, Owned)
    {
      BlockIsInterval(buddy.total, b.order, b.frame);
      forall f | f in buddy.Frames(b.order, b.frame)
        ensures f in At(ledger, Owned)
      {
        ReferencedIsOwned(ledger, refcount[..], f);
      }
    }
  }

  // ---------------------------------------------------------------- runs

  /** What one operation does with ownership: frames that enter the allocator at boot, or frames
      taken back from their owners, frames handed to an owner, and frames taken and lost. */
  datatype Event = Donation(frames: set<nat>) | Traffic(taken: set<nat>, given: set<nat>, lost: set<nat>)

  ghost predicate Step(l: Ledger, e: Event, m: Ledger)
  {
    match e
    case Donation(s) => Donates(l, m, s)
    case Traffic(taken, given, lost) => Exchanges(l, m, taken, given, lost)
  }

  ghost predicate Donates(l: Ledger, m: Ledger, s: set<nat>)
  {
    s !! l.Keys && m.Keys == l.Keys + s && forall f | f in m :: m[f] == if f in s then AtBuddy else l[f]
  }

  /** Only owned frames are taken; only free, stashed or just taken ones are given; a taken frame
      that is not given again is lost or is free or stashed; all others stay or move between lists
      and stashes. */
  ghost predicate Exchanges(l: Ledger, m: Ledger, taken: set<nat>, given: set<nat>, lost: set<nat>)
  {
    && Shuffled(l, m, taken + given) && lost <= taken - given
    && (forall f | f in taken :: f in l && l[f] == Owned && (f in given || if f in lost then m[f] == Leaked else Parked(m[f])))
    && (forall f | f in given :: f in l && (Parked(l[f]) || f in taken) && m[f] == Owned)
  }

  ghost predicate Run(ledgers: seq<Ledger>, events: seq<Event>)
  {
    && |ledgers| == |events| + 1
    && forall i: nat | i < |events| :: Step(ledgers[i], events[i], ledgers[i + 1])
  }

  ghost predicate Gives(e: Event, f: nat)
  {
    e.Traffic? && f in e.given
  }

  ghost predicate Takes(e: Event, f: nat)
  {
    e.Traffic? && f in e.taken
  }

  /** A frame that is owned at one point of a run and handed out later was taken back in
      between, or by that very call. */
  lemma {:induction false} TakenBackBetween(ledgers: seq<Ledger>, events: seq<Event>, f: nat, i: nat, j: nat) returns (k: nat)
    requires Run(ledgers, events) && i <= j < |events|
    requires f in ledgers[i] && ledgers[i][f] == Owned
    requires Gives(events[j], f)
    ensures i <= k <= j && Takes(events[k], f)
    decreases j - i
  {
    assert Step(ledgers[i], events[i], ledgers[i + 1]);
    if Takes(events[i], f) {
      k := i;
    } else {
      k := TakenBackBetween(ledgers, events, f, i + 1, j);
    }
  }

  /** Over every run, two hand-outs of one frame are separated by its return. */
  lemma NoDoubleHandOut(ledgers: seq<Ledger>, events: seq<Event>, f: nat, i: nat, j: nat)
    requires Run(ledgers, events) && i < j < |events|
    requires Gives(events[i], f) && Gives(events[j], f)
    ensures exists k: nat :: i < k <= j && Takes(events[k], f)
  {
    assert Step(ledgers[i], events[i], ledgers[i + 1]);
    var k := TakenBackBetween(ledgers, events, f, i + 1, j);
  }
}
