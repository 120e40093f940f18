/** Structural part of the buddy allocator: block arithmetic, the free lists with one XOR
    bit per buddy pair, and the four list/bit updates that allocation and release are made of.

    A block of order `o` with index `b` consists of the frames `f` with `f >> o == b`, so
    every statement about nesting, splitting and merging is a statement about halving. */
module BuddyCore {

  const MAX_ORDER: nat := 32

  // ---------------------------------------------------------------- block arithmetic

  /** `n >> k` */
  function Shr(n: nat, k: nat): nat
  {
    if k == 0 then n else Shr(n, k - 1) / 2
  }

  /** `n << k` */
  function Shl(n: nat, k: nat): nat
    decreases k
  {
    if k == 0 then n else Shl(2 * n, k - 1)
  }

  /** Number of frames in a block of order `o`. */
  function Pages(o: nat): nat
  {
    Shl(1, o)
  }

  /** The other half of the pair that block `b` belongs to (`b ^ 1`). */
  function Buddy(b: nat): (r: nat)
    ensures r != b && r / 2 == b / 2 && r % 2 != b % 2
  {
    if b % 2 == 0 then b + 1 else b - 1
  }

  /** `f & ~(1 << k)` */
  function ClearBit(f: nat, k: nat): int
  {
    if Shr(f, k) % 2 == 1 then f - Pages(k) else f
  }

  lemma {:induction false} ShlAdd(a: nat, b: nat, k: nat)
    ensures Shl(a + b, k) == Shl(a, k) + Shl(b, k)
    decreases k
  {
    if k > 0 {
      assert 2 * (a + b) == 2 * a + 2 * b;
      ShlAdd(2 * a, 2 * b, k - 1);
    }
  }

  lemma {:induction false} ShrShl(b: nat, k: nat)
    ensures Shr(Shl(b, k), k) == b
    decreases k
  {
    if k > 0 { ShrShl(2 * b, k - 1); }
  }

  /** A frame lies in block `f >> o`, between that block's first frame and the next block's. */
  lemma {:induction false} ShrBounds(f: nat, o: nat)
    ensures Shl(Shr(f, o), o) <= f < Shl(Shr(f, o) + 1, o)
  {
    if o > 0 {
      var h := Shr(f, o - 1);
      ShrBounds(f, o - 1);
      ShlAdd(1, 1, o - 1);
      ShlAdd(2 * (h / 2), h % 2, o - 1);
      ShlAdd(2 * (h / 2), 2, o - 1);
      ShlAdd(h, 1, o - 1);
    }
  }

  /** Converse of `ShrBounds`. */
  lemma {:induction false} ShrUnique(f: nat, o: nat, b: nat)
    requires Shl(b, o) <= f < Shl(b + 1, o)
    ensures Shr(f, o) == b
    decreases o
  {
    if o > 0 {
      assert Shl(b, o) == Shl(2 * b, o - 1);
      assert Shl(b + 1, o) == Shl(2 * b + 2, o - 1);
      if f < Shl(2 * b + 1, o - 1) {
        ShrUnique(f, o - 1, 2 * b);
      } else {
        ShrUnique(f, o - 1, 2 * b + 1);
      }
    }
  }

  lemma {:induction false} ShlPositive(n: nat, k: nat)
    requires n > 0
    ensures Shl(n, k) > 0
    decreases k
  {
    if k > 0 { ShlPositive(2 * n, k - 1); }
  }

  lemma ShlMonotone(a: nat, b: nat, k: nat)
    requires a <= b
    ensures Shl(a, k) <= Shl(b, k)
  {
    ShlAdd(a, b - a, k);
  }

  /** Two frames in one block of order `o` are in one block of every larger order. */
  lemma {:induction false} ShrNested(f: nat, g: nat, o: nat, k: nat)
    requires o <= k && Shr(f, o) == Shr(g, o)
    ensures Shr(f, k) == Shr(g, k)
    decreases k
  {
    if o < k { ShrNested(f, g, o, k - 1); }
  }

  // ---------------------------------------------------------------- state

  type Lists = seq<seq<nat>>   // per order, the first frames of the free blocks
  type Bits = seq<seq<bool>>   // per order, one bit per buddy pair

  /** `g_buddy_blocks[o]`: the number of blocks at order `o`, the last one possibly partial. */
  function Blocks(total: nat, o: nat): nat
  {
    if total == 0 then 0 else Shr(total - 1, o) + 1
  }

  /** The expression the initialisation code computes for the block count. */
  lemma BlocksIsRoundedUp(total: nat, o: nat)
    ensures Pages(o) >= 1 && Blocks(total, o) == Shr(total + Pages(o) - 1, o)
  {
    ShlPositive(1, o);
    if total == 0 {
      ShlAdd(0, 1, o);
      ShlZero(o);
      ShrUnique(Pages(o) - 1, o, 0);
    } else {
      ShrBounds(total - 1, o);
      ShlAdd(Shr(total - 1, o), 1, o);
      ShlAdd(Shr(total - 1, o) + 1, 1, o);
      ShrUnique(total - 1 + Pages(o), o, Shr(total - 1, o) + 1);
    }
  }

  lemma {:induction false} ShlZero(k: nat)
    ensures Shl(0, k) == 0
  {
    if k > 0 { ShlZero(k - 1); }
  }

  /** Block `b` of order `o` is on the free list of its order. */
  predicate IsFree(lists: Lists, o: nat, b: nat)
  {
    o < |lists| && Shl(b, o) in lists[o]
  }

  /** Some free block contains the frame. */
  predicate FreeFrame(lists: Lists, f: nat)
  {
    exists o: nat | o < |lists| :: IsFree(lists, o, Shr(f, o))
  }

  function FreeFrames(total: nat, lists: Lists): set<nat>
  {
    set f: nat | f < total && FreeFrame(lists, f)
  }

  function BlockFrames(total: nat, o: nat, b: nat): set<nat>
  {
    set f: nat | f < total && Shr(f, o) == b
  }

  ghost predicate NoDuplicates<T>(s: seq<T>)
  {
    forall i, j :: 0 <= i < j < |s| ==> s[i] != s[j]
  }

  ghost predicate ListEntry(total: nat, o: nat, e: nat)
  {
    e == Shl(Shr(e, o), o) && e + Pages(o) <= total
  }

  /** Free-list entries are aligned to their order, inside memory, and listed once. */
  ghost predicate ListsOk(total: nat, lists: Lists)
  {
    && |lists| == MAX_ORDER + 1
    && (forall o: nat, e | o < |lists| && e in lists[o] :: ListEntry(total, o, e))
    && (forall o: nat | o < |lists| :: NoDuplicates(lists[o]))
  }

  /** No frame is covered by free blocks of two orders. */
  ghost predicate Disjoint(lists: Lists)
  {
    forall f: nat, o: nat, k: nat ::
      IsFree(lists, o, Shr(f, o)) && IsFree(lists, k, Shr(f, k)) ==> o == k
  }

  ghost predicate PairOk(lists: Lists, bits: Bits, o: nat, p: nat)
    requires o < |bits| && p < |bits[o]|
  {
    && bits[o][p] == (IsFree(lists, o, 2 * p) != IsFree(lists, o, 2 * p + 1))
    && !(IsFree(lists, o, 2 * p) && IsFree(lists, o, 2 * p + 1))
  }

  ghost predicate BitsShape(total: nat, bits: Bits)
  {
    && |bits| == MAX_ORDER + 1
    && forall o: nat | o < |bits| :: |bits[o]| == (Blocks(total, o) + 1) / 2
  }

  /** Below the top order each bit is the XOR of its pair's two free states, and no two
      buddies are free together. */
  ghost predicate PairsOk(lists: Lists, bits: Bits)
  {
    forall o: nat, p: nat | o < |bits| && o < MAX_ORDER && p < |bits[o]| :: PairOk(lists, bits, o, p)
  }

  ghost predicate Inv(total: nat, lists: Lists, bits: Bits)
  {
    && ListsOk(total, lists)
    && Disjoint(lists)
    && BitsShape(total, bits)
    && PairsOk(lists, bits)
  }

  /** No frame of block `b` is free: the block is in the hands of the running operation. */
  ghost predicate Held(lists: Lists, o: nat, b: nat)
  {
    forall f: nat, k: nat :: Shr(f, o) == b ==> !IsFree(lists, k, Shr(f, k))
  }

  ghost predicate InMemory(total: nat, o: nat, b: nat)
  {
    Shl(b, o) + Pages(o) <= total
  }

  // ---------------------------------------------------------------- list and bit updates

  function Push(lists: Lists, o: nat, e: nat): Lists
    requires o < |lists|
  {
    lists[o := [e] + lists[o]]
  }

  function Toggle(bits: Bits, o: nat, p: nat): Bits
    requires o < |bits| && p < |bits[o]|
  {
    bits[o := bits[o][p := !bits[o][p]]]
  }

  /** Unlinking a node from its list. */
  function Without(s: seq<nat>, e: nat): seq<nat>
  {
    if s == [] then [] else if s[0] == e then s[1..] else [s[0]] + Without(s[1..], e)
  }

  lemma {:induction false} WithoutMembers(s: seq<nat>, e: nat)
    requires NoDuplicates(s)
    ensures NoDuplicates(Without(s, e))
    ensures forall x :: x in Without(s, e) <==> x in s && x != e
  {
    if s != [] {
      assert forall x :: x in s <==> x == s[0] || x in s[1..];
      if s[0] == e {
        assert e !in s[1..];
      } else {
        var w := Without(s[1..], e);
        WithoutMembers(s[1..], e);
        assert s[0] !in s[1..];
        assert s[0] !in w;
        assert Without(s, e) == [s[0]] + w;
      }
    }
  }

  /** `post` lists the blocks of `pre` and block `(o, b)`. */
  ghost predicate Added(pre: Lists, post: Lists, o: nat, b: nat)
  {
    forall k: nat, c: nat {:trigger IsFree(post, k, c)} {:trigger IsFree(pre, k, c)} ::
      IsFree(post, k, c) <==> IsFree(pre, k, c) || (k == o && c == b)
  }

  lemma PushAdds(total: nat, lists: Lists, o: nat, b: nat)
    requires ListsOk(total, lists) && o <= MAX_ORDER
    requires InMemory(total, o, b) && !IsFree(lists, o, b)
    ensures ListsOk(total, Push(lists, o, Shl(b, o)))
    ensures Added(lists, Push(lists, o, Shl(b, o)), o, b)
  {
    var post := Push(lists, o, Shl(b, o));
    ShrShl(b, o);
    assert ListEntry(total, o, Shl(b, o));
    forall k: nat, c: nat
      ensures IsFree(post, k, c) <==> IsFree(lists, k, c) || (k == o && c == b)
    {
      ShrShl(c, o);
    }
  }

  lemma UnlinkRemoves(total: nat, lists: Lists, post: Lists, o: nat, b: nat)
    requires ListsOk(total, lists) && IsFree(lists, o, b)
    requires |post| == |lists| && post == lists[o := post[o]]
    requires NoDuplicates(post[o])
    requires forall x :: x in post[o] <==> x in lists[o] && x != Shl(b, o)
    ensures ListsOk(total, post)
    ensures Added(post, lists, o, b) && !IsFree(post, o, b)
  {
    forall k: nat, c: nat
      ensures IsFree(lists, k, c) <==> IsFree(post, k, c) || (k == o && c == b)
    {
      ShrShl(c, o);
      ShrShl(b, o);
    }
  }

  lemma InMemoryIndex(total: nat, o: nat, b: nat)
    requires InMemory(total, o, b)
    ensures b < Blocks(total, o) && b / 2 < (Blocks(total, o) + 1) / 2
  {
    ShlPositive(1, o);
    ShrBounds(total - 1, o);
    if Shr(total - 1, o) < b {
      ShlMonotone(Shr(total - 1, o) + 1, b, o);
      assert false;
    }
  }

  lemma FreeIsInMemory(total: nat, lists: Lists, o: nat, b: nat)
    requires ListsOk(total, lists) && IsFree(lists, o, b)
    ensures o <= MAX_ORDER && InMemory(total, o, b)
  {
    assert ListEntry(total, o, Shl(b, o));
  }

  /** Every frame of a free block is below the end of memory, hence a free frame. */
  lemma AddedFrames(total: nat, pre: Lists, post: Lists, o: nat, b: nat)
    requires Added(pre, post, o, b) && |pre| == |post| && o < |pre|
    ensures FreeFrames(total, post) == FreeFrames(total, pre) + BlockFrames(total, o, b)
  {
    forall f: nat
      ensures FreeFrame(post, f) <==> FreeFrame(pre, f) || Shr(f, o) == b
    {
      if FreeFrame(pre, f) {
        var k: nat :| k < |pre| && IsFree(pre, k, Shr(f, k));
        assert IsFree(post, k, Shr(f, k));
      }
      if Shr(f, o) == b { assert IsFree(post, o, Shr(f, o)); }
    }
  }

  lemma HeldIsNotFree(total: nat, lists: Lists, o: nat, b: nat)
    requires Held(lists, o, b)
    ensures !IsFree(lists, o, b)
    ensures FreeFrames(total, lists) !! BlockFrames(total, o, b)
  {
    ShrShl(b, o);
  }

  /** Releasing a held block without merging: push it and record the change in its pair's
      bit.  Below the top order the bit must say that the buddy is not free. */
  lemma AddStep(total: nat, lists: Lists, bits: Bits, o: nat, b: nat)
    requires Inv(total, lists, bits) && o <= MAX_ORDER
    requires InMemory(total, o, b) && Held(lists, o, b)
    requires b / 2 < |bits[o]|
    requires o < MAX_ORDER ==> !bits[o][b / 2]
    ensures var post := Push(lists, o, Shl(b, o));
            && Inv(total, post, if o < MAX_ORDER then Toggle(bits, o, b / 2) else bits)
            && Added(lists, post, o, b)
  {
    HeldIsNotFree(total, lists, o, b);
    PushAdds(total, lists, o, b);
    var post := Push(lists, o, Shl(b, o));
    var bits' := if o < MAX_ORDER then Toggle(bits, o, b / 2) else bits;
    forall k: nat, p: nat | k < |bits'| && k < MAX_ORDER && p < |bits'[k]|
      ensures PairOk(post, bits', k, p)
    {
      assert PairOk(lists, bits, k, p);
    }
  }

  /** Taking a free block off its list and recording the change in its pair's bit. */
  lemma RemoveStep(total: nat, lists: Lists, bits: Bits, post: Lists, o: nat, b: nat)
    requires Inv(total, lists, bits) && IsFree(lists, o, b)
    requires ListsOk(total, post) && Added(post, lists, o, b) && !IsFree(post, o, b)
    requires b / 2 < |bits[o]|
    ensures Inv(total, post, Toggle(bits, o, b / 2))
    ensures Held(post, o, b)
  {
    var bits' := Toggle(bits, o, b / 2);
    forall k: nat, p: nat | k < |bits'| && k < MAX_ORDER && p < |bits'[k]|
      ensures PairOk(post, bits', k, p)
    {
      assert PairOk(lists, bits, k, p);
    }
    forall f: nat, k: nat | Shr(f, o) == b
      ensures !IsFree(post, k, Shr(f, k))
    {
      assert IsFree(lists, o, Shr(f, o));
    }
  }

  /** Splitting a held block: both halves are held and their pair's bit is clear. */
  lemma SplitHeld(total: nat, lists: Lists, bits: Bits, o: nat, b: nat)
    requires Inv(total, lists, bits) && o < MAX_ORDER
    requires Held(lists, o + 1, b) && InMemory(total, o + 1, b)
    ensures Held(lists, o, 2 * b) && Held(lists, o, 2 * b + 1)
    ensures InMemory(total, o, 2 * b) && InMemory(total, o, 2 * b + 1)
    ensures b < |bits[o]| && !bits[o][b]
  {
    ShlAdd(1, 1, o);
    ShlAdd(2 * b, 1, o);
    forall f: nat | Shr(f, o) == 2 * b || Shr(f, o) == 2 * b + 1
      ensures Shr(f, o + 1) == b
    {
    }
    HeldIsNotFree(total, lists, o, 2 * b);
    HeldIsNotFree(total, lists, o, 2 * b + 1);
    InMemoryIndex(total, o, 2 * b + 1);
    assert PairOk(lists, bits, o, b);
  }

  /** Merging two held buddies gives a held parent. */
  lemma MergeHeld(total: nat, lists: Lists, o: nat, b: nat)
    requires Held(lists, o, b) && Held(lists, o, Buddy(b))
    requires InMemory(total, o, b) && InMemory(total, o, Buddy(b))
    ensures Held(lists, o + 1, b / 2)
    ensures InMemory(total, o + 1, b / 2)
    ensures ClearBit(Shl(b, o), o) == Shl(b / 2, o + 1)
  {
    forall f: nat | Shr(f, o + 1) == b / 2
      ensures Shr(f, o) == b || Shr(f, o) == Buddy(b)
    {
    }
    ShlAdd(1, 1, o);
    ShlAdd(2 * (b / 2), 1, o);
    ShrShl(b, o);
  }

  /** With the bit set, the buddy of a held block is free. */
  lemma BuddyOfHeld(total: nat, lists: Lists, bits: Bits, o: nat, b: nat)
    requires Inv(total, lists, bits) && o < MAX_ORDER
    requires Held(lists, o, b) && b / 2 < |bits[o]|
    ensures bits[o][b / 2] == IsFree(lists, o, Buddy(b))
  {
    HeldIsNotFree(total, lists, o, b);
    assert PairOk(lists, bits, o, b / 2);
  }

  /** A block none of whose frames is free is held. */
  lemma DisjointIsHeld(total: nat, lists: Lists, o: nat, b: nat)
    requires ListsOk(total, lists) && InMemory(total, o, b)
    requires BlockFrames(total, o, b) !! FreeFrames(total, lists)
    ensures Held(lists, o, b)
  {
    forall f: nat, k: nat | Shr(f, o) == b
      ensures !IsFree(lists, k, Shr(f, k))
    {
      ShrBounds(f, o);
      ShlAdd(b, 1, o);
      assert f in BlockFrames(total, o, b);
      assert !FreeFrame(lists, f);
    }
  }

  /** A list hands out first what was put on it last: popping it right away restores lists and bits. */
  lemma PopUndoesAdd(lists: Lists, bits: Bits, o: nat, e: nat, p: nat)
    requires o < |lists| && o < |bits| && p < |bits[o]|
    ensures var post := Push(lists, o, e); post[o] != [] && post[o][0] == e && post[o := post[o][1..]] == lists
    ensures Toggle(Toggle(bits, o, p), o, p) == bits
  {
    assert Push(lists, o, e)[o][1..] == lists[o];
    assert Toggle(Toggle(bits, o, p), o, p)[o] == bits[o];
  }

  /** Popping the head of a list takes exactly that block's frames out of the free set. */
  lemma PopStep(total: nat, lists: Lists, bits: Bits, o: nat)
    requires Inv(total, lists, bits) && o <= MAX_ORDER && lists[o] != []
    ensures var b := Shr(lists[o][0], o);
            var post := lists[o := lists[o][1..]];
            && InMemory(total, o, b) && b / 2 < |bits[o]|
            && lists[o][0] == Shl(b, o)
            && Inv(total, post, Toggle(bits, o, b / 2))
            && Held(post, o, b)
            && FreeFrames(total, lists) == FreeFrames(total, post) + BlockFrames(total, o, b)
            && FreeFrames(total, post) !! BlockFrames(total, o, b)
  {
    var e := lists[o][0];
    var b := Shr(e, o);
    var post := lists[o := lists[o][1..]];
    assert ListEntry(total, o, e);
    assert IsFree(lists, o, b);
    InMemoryIndex(total, o, b);
    assert forall x :: x in post[o] <==> x in lists[o] && x != e;
    UnlinkRemoves(total, lists, post, o, b);
    RemoveStep(total, lists, bits, post, o, b);
    AddedFrames(total, post, lists, o, b);
    HeldIsNotFree(total, post, o, b);
  }

  /** Splitting a held block: the right half becomes free, the left half stays held. */
  lemma SplitStep(total: nat, lists: Lists, bits: Bits, o: nat, b: nat)
    requires Inv(total, lists, bits) && o < MAX_ORDER
    requires Held(lists, o + 1, b) && InMemory(total, o + 1, b)
    ensures b < |bits[o]|
    ensures var post := Push(lists, o, Shl(2 * b + 1, o));
            && Inv(total, post, Toggle(bits, o, b))
            && Held(post, o, 2 * b) && InMemory(total, o, 2 * b)
            && FreeFrames(total, post) + BlockFrames(total, o, 2 * b)
               == FreeFrames(total, lists) + BlockFrames(total, o + 1, b)
            && FreeFrames(total, post) !! BlockFrames(total, o, 2 * b)
  {
    SplitHeld(total, lists, bits, o, b);
    AddStep(total, lists, bits, o, 2 * b + 1);
    var post := Push(lists, o, Shl(2 * b + 1, o));
    AddedFrames(total, lists, post, o, 2 * b + 1);
    assert BlockFrames(total, o + 1, b) == BlockFrames(total, o, 2 * b) + BlockFrames(total, o, 2 * b + 1);
    forall f: nat, k: nat | Shr(f, o) == 2 * b
      ensures !IsFree(post, k, Shr(f, k))
    {
      assert !IsFree(lists, k, Shr(f, k));
    }
    HeldIsNotFree(total, post, o, 2 * b);
  }

  /** Merging: the bit says the buddy is free; it leaves its list and the parent is held. */
  lemma MergeStep(total: nat, lists: Lists, bits: Bits, o: nat, b: nat)
    requires Inv(total, lists, bits) && o < MAX_ORDER
    requires Held(lists, o, b) && InMemory(total, o, b)
    requires b / 2 < |bits[o]| && bits[o][b / 2]
    ensures var post := lists[o := Without(lists[o], Shl(Buddy(b), o))];
            && Inv(total, post, Toggle(bits, o, b / 2))
            && Held(post, o + 1, b / 2) && InMemory(total, o + 1, b / 2)
            && ClearBit(Shl(b, o), o) == Shl(b / 2, o + 1)
            && FreeFrames(total, post) + BlockFrames(total, o + 1, b / 2)
               == FreeFrames(total, lists) + BlockFrames(total, o, b)
  {
    var c := Buddy(b);
    var post := lists[o := Without(lists[o], Shl(c, o))];
    BuddyOfHeld(total, lists, bits, o, b);
    FreeIsInMemory(total, lists, o, c);
    WithoutMembers(lists[o], Shl(c, o));
    UnlinkRemoves(total, lists, post, o, c);
    RemoveStep(total, lists, bits, post, o, c);
    AddedFrames(total, post, lists, o, c);
    forall f: nat, k: nat | Shr(f, o) == b
      ensures !IsFree(post, k, Shr(f, k))
    {
      assert !IsFree(lists, k, Shr(f, k));
    }
    MergeHeld(total, post, o, b);
    assert BlockFrames(total, o + 1, b / 2) == BlockFrames(total, o, b) + BlockFrames(total, o, c);
  }

  // ---------------------------------------------------------------- completeness

  /** A block all of whose frames are free lies inside one free block of at least its order.
      This is where the absence of free buddy pairs is used. */
  lemma {:induction false} FreeRunInOneBlock(total: nat, lists: Lists, bits: Bits, o: nat, b: nat) returns (k: nat)
    requires Inv(total, lists, bits) && o <= MAX_ORDER && InMemory(total, o, b)
    requires BlockFrames(total, o, b) <= FreeFrames(total, lists)
    ensures o <= k <= MAX_ORDER
    ensures forall f: nat :: Shr(f, o) == b ==> IsFree(lists, k, Shr(f, k))
  {
    if o == 0 {
      assert b in BlockFrames(total, 0, b) by { assert Shr(b, 0) == b; }
      assert FreeFrame(lists, b);
      k :| k < |lists| && IsFree(lists, k, Shr(b, k));
    } else {
      var h := o - 1;
      ShlAdd(1, 1, h);
      ShlAdd(2 * b, 1, h);
      assert BlockFrames(total, h, 2 * b) <= BlockFrames(total, o, b);
      assert BlockFrames(total, h, 2 * b + 1) <= BlockFrames(total, o, b);
      var left := FreeRunInOneBlock(total, lists, bits, h, 2 * b);
      var right := FreeRunInOneBlock(total, lists, bits, h, 2 * b + 1);
      var f0, f1 := Shl(2 * b, h), Shl(2 * b + 1, h);
      ShrShl(2 * b, h);
      ShrShl(2 * b + 1, h);
      InMemoryIndex(total, h, 2 * b + 1);
      assert PairOk(lists, bits, h, b);
      var inside := if left > h then f0 else f1;
      k := if left > h then left else right;
      forall f: nat | Shr(f, o) == b
        ensures IsFree(lists, k, Shr(f, k))
      {
        ShrNested(f, inside, o, k);
      }
    }
  }

  lemma {:induction false} BlockFramesCount(total: nat, o: nat, b: nat)
    requires InMemory(total, o, b)
    ensures |BlockFrames(total, o, b)| == Pages(o)
    decreases o
  {
    if o == 0 {
      assert BlockFrames(total, 0, b) == {b};
    } else {
      var l, r := BlockFrames(total, o - 1, 2 * b), BlockFrames(total, o - 1, 2 * b + 1);
      ShlAdd(1, 1, o - 1);
      ShlAdd(2 * b, 1, o - 1);
      BlockFramesCount(total, o - 1, 2 * b);
      BlockFramesCount(total, o - 1, 2 * b + 1);
      assert BlockFrames(total, o, b) == l + r;
      assert l !! r;
    }
  }

  /** An allocation of order `o` can be served exactly when some aligned run of `2^o` frames
      is entirely free. */
  lemma Completeness(total: nat, lists: Lists, bits: Bits, o: nat)
    requires Inv(total, lists, bits) && o <= MAX_ORDER
    ensures (exists k: nat | o <= k <= MAX_ORDER :: lists[k] != [])
        <==> (exists b: nat :: InMemory(total, o, b) && BlockFrames(total, o, b) <= FreeFrames(total, lists))
  {
    if k: nat :| o <= k <= MAX_ORDER && lists[k] != [] {
      var e := lists[k][0];
      assert ListEntry(total, k, e);
      var b := Shr(e, o);
      FirstSubBlock(total, lists, k, e, o);
      assert InMemory(total, o, b) && BlockFrames(total, o, b) <= FreeFrames(total, lists);
    }
    if b: nat :| InMemory(total, o, b) && BlockFrames(total, o, b) <= FreeFrames(total, lists) {
      var k := FreeRunInOneBlock(total, lists, bits, o, b);
      ShrShl(b, o);
      assert IsFree(lists, k, Shr(Shl(b, o), k));
    }
  }

  /** The first sub-block of order `o` of a free block of order `k`. */
  lemma {:induction false} FirstSubBlock(total: nat, lists: Lists, k: nat, e: nat, o: nat)
    requires |lists| == MAX_ORDER + 1 && o <= k <= MAX_ORDER
    requires e in lists[k] && ListEntry(total, k, e)
    ensures InMemory(total, o, Shr(e, o)) && Shl(Shr(e, o), o) == e
    ensures BlockFrames(total, o, Shr(e, o)) <= FreeFrames(total, lists)
  {
    SubAligned(e, k, o);
    PagesMonotone(o, k);
    forall f: nat | f < total && Shr(f, o) == Shr(e, o)
      ensures FreeFrame(lists, f)
    {
      ShrNested(f, e, o, k);
      assert IsFree(lists, k, Shr(f, k));
    }
  }

  lemma {:induction false} SubAligned(e: nat, k: nat, o: nat)
    requires o <= k && e == Shl(Shr(e, k), k)
    ensures e == Shl(Shr(e, o), o)
    decreases k
  {
    if o < k {
      var b := Shr(e, k);
      ShrShl(2 * b, k - 1);
      SubAligned(e, k - 1, o);
    }
  }

  lemma {:induction false} PagesMonotone(o: nat, k: nat)
    requires o <= k
    ensures Pages(o) <= Pages(k)
    decreases k
  {
    if o < k {
      ShlAdd(1, 1, k - 1);
      PagesMonotone(o, k - 1);
    }
  }
}
