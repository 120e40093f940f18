/** Whole histories of the page allocator: boot, then any sequence of calls. */
module PmmRuns {
  import opened Options
  import opened BuddyCore
  import opened Buddy
  import opened Pmm

  /** The public calls, with the processor they run on.  `slabs` are the slabs that are empty. */
  datatype Call =
    | Alloc(cpu: nat, order: nat, slabs: seq<Block>)
    | Free(cpu: nat, block: Block)
    | Inc(frame: nat)
    | Dec(frame: nat)
    | PinFrame(frame: nat)
    | UnpinFrame(frame: nat)
    | DrainStashes

  /** What a call returned: the block handed out, or a sign that frames were taken back; and whether
      the frame whose last reference it dropped was pinned. */
  datatype Outcome = Outcome(value: Option<nat>, shrunk: bool, pinned: bool)

  predicate Covers(b: Block, f: nat)
  {
    b.frame <= f < b.frame + Pages(b.order)
  }

  /** The call gave frame `f` to its caller. */
  predicate HandsOut(c: Call, o: Outcome, f: nat)
  {
    c.Alloc? && o.value.Some? && Covers(Block(o.value.value, c.order), f)
  }

  /** The call took frame `f` from its owner. */
  ghost predicate TakesBack(c: Call, o: Outcome, f: nat)
  {
    match c
    case Alloc(_, _, slabs) => o.shrunk && exists i: nat :: i < |slabs| && Covers(slabs[i], f)
    case Free(_, b) => o.value.Some? && Covers(b, f)
    case Dec(g) => o.value.Some? && f == g
    case _ => false
  }

  /** The call dropped the last reference of a pinned frame. */
  predicate Loses(c: Call, o: Outcome, f: nat)
  {
    c.Dec? && f == c.frame && o.value.Some? && o.pinned
  }

  /** Blocks of the managed range that do not overlap. */
  predicate Separate(total: nat, blocks: seq<Block>)
  {
    && (forall i: nat | i < |blocks| :: BlockOk(total, blocks[i]))
    && (forall i: nat, j: nat | i < |blocks| && j < i ::
          blocks[i].frame + Pages(blocks[i].order) <= blocks[j].frame || blocks[j].frame + Pages(blocks[j].order) <= blocks[i].frame)
  }

  lemma {:induction false} CoveredIs(total: nat, blocks: seq<Block>, f: nat)
    requires forall i: nat | i < |blocks| :: BlockOk(total, blocks[i])
    ensures f in Covered(total, blocks) <==> exists i: nat :: i < |blocks| && Covers(blocks[i], f)
  {
    if blocks != [] {
      var n := |blocks| - 1;
      CoveredIs(total, blocks[..n], f);
      BlockIsInterval(total, blocks[n].order, blocks[n].frame);
      assert f in Covered(total, blocks) <==> f in Covered(total, blocks[..n]) || Covers(blocks[n], f);
      if i: nat :| i < |blocks| && Covers(blocks[i], f) && i < n { assert Covers(blocks[..n][i], f); }
    }
  }

  lemma SeparateIsApart(total: nat, blocks: seq<Block>)
    requires Separate(total, blocks)
    ensures Apart(total, blocks)
  {
    forall i: nat, f | i < |blocks| && f in BlockFrames(total, blocks[i].order, Shr(blocks[i].frame, blocks[i].order))
      ensures f !in Covered(total, blocks[..i])
    {
      BlockIsInterval(total, blocks[i].order, blocks[i].frame);
      CoveredIs(total, blocks[..i], f);
    }
  }

  ghost function EventOf(total: nat, c: Call, o: Outcome): Event
  {
    match c
    case Alloc(_, order, slabs) => AllocEvent(total, order, slabs, o.value, o.shrunk)
    case Free(_, b) => Traffic(if o.value.Some? then BlockFrames(total, b.order, Shr(b.frame, b.order)) else {}, {}, {})
    case Dec(f) => Traffic(if o.value.Some? then {f} else {}, {}, if o.value.Some? && o.pinned then {f} else {})
    case _ => Traffic({}, {}, {})
  }

  /** The blocks a call speaks of are blocks of the managed range, where it acted on them. */
  ghost predicate Sound(total: nat, c: Call, o: Outcome)
  {
    match c
    case Alloc(_, order, slabs) =>
      && (o.value.Some? ==> BlockOk(total, Block(o.value.value, order)))
      && (o.shrunk ==> forall i: nat | i < |slabs| :: BlockOk(total, slabs[i]))
    case Free(_, b) => o.value.Some? ==> BlockOk(total, b)
    case _ => true
  }

  lemma EventMeans(total: nat, c: Call, o: Outcome, f: nat)
    requires Sound(total, c, o)
    ensures Gives(EventOf(total, c, o), f) <==> HandsOut(c, o, f)
    ensures Takes(EventOf(total, c, o), f) <==> TakesBack(c, o, f)
    ensures f in EventOf(total, c, o).lost <==> Loses(c, o, f)
  {
    match c
    case Alloc(_, order, slabs) =>
      if o.value.Some? { BlockIsInterval(total, order, o.value.value); }
      if o.shrunk { CoveredIs(total, slabs, f); }
    case Free(_, b) =>
      if o.value.Some? { BlockIsInterval(total, b.order, b.frame); }
    case _ =>
  }

  /** One call on behalf of a caller.  Calls that no caller may make are refused: on a processor
      that does not exist, or for frames it can have no reference to. */
  method Perform(a: PageAllocator, c: Call) returns (o: Outcome)
    requires a.Idle()
    modifies a, a.buddy, a.refcount, a.pincount
    ensures a.Idle() && Sound(a.buddy.total, c, o)
    ensures Step(old(a.ledger), EventOf(a.buddy.total, c, o), a.ledger)
  {
    o := Outcome(None, false, false);
    match c
    case Alloc(cpu, order, slabs) =>
      if cpu < |a.stash| && Separate(a.buddy.total, slabs) && AllReferenced(a, slabs) {
        ReferencedSlabs(a, slabs);
        var r, _, shrunk := a.BuddyAlloc(cpu, order, slabs);
        o := Outcome(r, shrunk, false);
      }
    case Free(cpu, b) =>
      if cpu < |a.stash| && BlockOk(a.buddy.total, b) && a.Referenced(b) {
        a.ReferencedBlockIsOwned(b);
        a.BuddyFree(cpu, b.frame, b.order);
        o := Outcome(Some(b.frame), false, false);
      }
    case Inc(f) =>
      if f < a.buddy.total && 0 < a.refcount[f] < U32_MAX { var _ := a.RefInc(f); }
    case Dec(f) =>
      var last := f < a.buddy.total && a.refcount[f] == 1;
      var pinned := last && a.pincount[f] > 0;
      a.RefDec(f);
      if last { o := Outcome(Some(f), false, pinned); }
    case PinFrame(f) => a.Pin(f);
    case UnpinFrame(f) => a.Unpin(f);
    case DrainStashes => a.DrainAll();
  }

  predicate AllReferenced(a: PageAllocator, blocks: seq<Block>)
    requires Separate(a.buddy.total, blocks) && a.refcount.Length == a.buddy.total
    reads a.refcount
  {
    forall i: nat | i < |blocks| :: a.Referenced(blocks[i])
  }

  lemma ReferencedSlabs(a: PageAllocator, blocks: seq<Block>)
    requires a.Idle() && Separate(a.buddy.total, blocks) && AllReferenced(a, blocks)
    ensures SlabsOk(a.buddy.total, blocks, a.ledger)
  {
    SeparateIsApart(a.buddy.total, blocks);
    forall f | f in Covered(a.buddy.total, blocks)
      ensures f in At(a.ledger, Owned)
    {
      CoveredIs(a.buddy.total, blocks, f);
      var i: nat :| i < |blocks| && Covers(blocks[i], f);
      a.ReferencedBlockIsOwned(blocks[i]);
      BlockIsInterval(a.buddy.total, blocks[i].order, blocks[i].frame);
    }
  }

  lemma RunExtends(ledgers: seq<Ledger>, events: seq<Event>, e: Event, m: Ledger)
    requires Run(ledgers, events) && Step(ledgers[|events|], e, m)
    ensures Run(ledgers + [m], events + [e])
  {
    forall i: nat | i <= |events|
      ensures Step((ledgers + [m])[i], (events + [e])[i], (ledgers + [m])[i + 1])
    {
      if i < |events| { assert Step(ledgers[i], events[i], ledgers[i + 1]); }
    }
  }

  /** All managed memory is on the free lists, and it is the memory of these blocks. */
  ghost predicate Booted(l: Ledger, total: nat, memory: seq<Block>)
  {
    l.Keys == At(l, AtBuddy) == Covered(total, memory)
  }

  lemma BootOne(l: Ledger, m: Ledger, total: nat, memory: seq<Block>, n: nat)
    requires Apart(total, memory) && n < |memory| && Booted(l, total, memory[..n])
    requires Donates(l, m, BlockFrames(total, memory[n].order, Shr(memory[n].frame, memory[n].order)))
    ensures Booted(m, total, memory[..n + 1])
  {
    assert memory[..n + 1][..n] == memory[..n];
    assert forall f | f in l :: f in At(l, AtBuddy);
  }

  /** The usable memory enters the free lists block by block. */
  method Boot(total: nat, cpus: nat, memory: seq<Block>) returns (a: PageAllocator, ghost ledgers: seq<Ledger>, ghost events: seq<Event>)
    requires Separate(total, memory)
    ensures fresh(a) && fresh(a.buddy) && fresh(a.refcount) && fresh(a.pincount)
    ensures a.Idle() && a.buddy.total == total && Booted(a.ledger, total, memory)
    ensures Run(ledgers, events) && |events| == |memory| && ledgers[|memory|] == a.ledger
  {
    a := new PageAllocator(total, cpus);
    ledgers, events := [a.ledger], [];
    var n := 0;
    assert memory[..0] == [];
    SeparateIsApart(total, memory);
    while n < |memory|
      invariant n <= |memory| && a.Idle() && a.buddy.total == total && Booted(a.ledger, total, memory[..n])
      invariant fresh(a) && fresh(a.buddy) && fresh(a.refcount) && fresh(a.pincount)
      invariant Run(ledgers, events) && |events| == n && ledgers[n] == a.ledger
    {
      ghost var l := a.ledger;
      ghost var e := Donation(BlockFrames(total, memory[n].order, Shr(memory[n].frame, memory[n].order)));
      a.Donate(memory[n].frame, memory[n].order);
      RunExtends(ledgers, events, e, a.ledger);
      BootOne(l, a.ledger, total, memory, n);
      ledgers, events := ledgers + [a.ledger], events + [e];
      n := n + 1;
    }
    assert memory[..n] == memory;
  }

  /** No frame is handed out twice without being taken back in between (by a release, by its last
      reference, or as part of an empty slab). */
  ghost predicate NeverTwoOwners(calls: seq<Call>, outcomes: seq<Outcome>)
    requires |calls| == |outcomes|
  {
    forall i: nat, j: nat, f: nat | i < j < |calls| && HandsOut(calls[i], outcomes[i], f) && HandsOut(calls[j], outcomes[j], f) ::
      exists k: nat :: i < k <= j && TakesBack(calls[k], outcomes[k], f)
  }

  ghost predicate FromMemory(memory: seq<Block>, calls: seq<Call>, outcomes: seq<Outcome>)
    requires |calls| == |outcomes|
  {
    forall i: nat, f: nat | i < |calls| && HandsOut(calls[i], outcomes[i], f) :: exists j: nat :: j < |memory| && Covers(memory[j], f)
  }

  /** The calls so far are the events of a run that started with the boot events. */
  ghost predicate Recorded(total: nat, managed: set<nat>, ledgers: seq<Ledger>, events: seq<Event>, booted: nat, calls: seq<Call>, outcomes: seq<Outcome>)
  {
    && Run(ledgers, events) && |events| == booted + |outcomes| && |outcomes| <= |calls|
    && (forall i: nat | i < |outcomes| :: Sound(total, calls[i], outcomes[i]) && events[booted + i] == EventOf(total, calls[i], outcomes[i]))
    && (forall i: nat | booted <= i < |ledgers| :: ledgers[i].Keys == managed)
    && At(ledgers[booted], Leaked) == {}
  }

  /** What is lost has been lost by one of the first `n` calls. */
  ghost predicate LostBy(l: Ledger, calls: seq<Call>, outcomes: seq<Outcome>, n: nat, f: nat)
    requires n <= |calls| && n <= |outcomes|
  {
    f in l && (l[f] == Leaked <==> exists i: nat :: i < n && Loses(calls[i], outcomes[i], f))
  }

  /** One call, as far as what is lost goes. */
  ghost predicate LosesMore(l: Ledger, c: Call, o: Outcome, m: Ledger, f: nat)
  {
    f in l && f in m && (m[f] == Leaked <==> l[f] == Leaked || Loses(c, o, f))
  }

  lemma {:induction false} LostInTurn(ledgers: seq<Ledger>, booted: nat, calls: seq<Call>, outcomes: seq<Outcome>, n: nat, f: nat)
    requires booted + n < |ledgers| && n <= |calls| && n <= |outcomes| && f in ledgers[booted] && ledgers[booted][f] != Leaked
    requires forall i: nat | i < n :: LosesMore(ledgers[booted + i], calls[i], outcomes[i], ledgers[booted + i + 1], f)
    ensures LostBy(ledgers[booted + n], calls, outcomes, n, f)
    decreases n
  {
    if n > 0 {
      LostInTurn(ledgers, booted, calls, outcomes, n - 1, f);
      assert LosesMore(ledgers[booted + (n - 1)], calls[n - 1], outcomes[n - 1], ledgers[booted + (n - 1) + 1], f);
    }
  }

  lemma LostByCall(total: nat, managed: set<nat>, ledgers: seq<Ledger>, events: seq<Event>, booted: nat,
                   calls: seq<Call>, outcomes: seq<Outcome>, f: nat)
    requires Recorded(total, managed, ledgers, events, booted, calls, outcomes) && f in managed
    ensures LostBy(ledgers[booted + |outcomes|], calls, outcomes, |outcomes|, f)
  {
    forall i: nat | i < |outcomes|
      ensures LosesMore(ledgers[booted + i], calls[i], outcomes[i], ledgers[booted + i + 1], f)
    {
      RecordedStep(total, managed, ledgers, events, booted, calls, outcomes, i);
      LostStep(total, ledgers[booted + i], calls[i], outcomes[i], ledgers[booted + i + 1], f);
    }
    assert f !in At(ledgers[booted], Leaked);
    LostInTurn(ledgers, booted, calls, outcomes, |outcomes|, f);
  }

  lemma RecordedStep(total: nat, managed: set<nat>, ledgers: seq<Ledger>, events: seq<Event>, booted: nat,
                     calls: seq<Call>, outcomes: seq<Outcome>, i: nat)
    requires Recorded(total, managed, ledgers, events, booted, calls, outcomes) && i < |outcomes|
    ensures Sound(total, calls[i], outcomes[i])
    ensures Step(ledgers[booted + i], EventOf(total, calls[i], outcomes[i]), ledgers[booted + i + 1])
  {
    assert events[booted + i] == EventOf(total, calls[i], outcomes[i]);
  }

  lemma LostStep(total: nat, l: Ledger, c: Call, o: Outcome, m: Ledger, f: nat)
    requires Sound(total, c, o) && Step(l, EventOf(total, c, o), m) && f in l
    ensures LosesMore(l, c, o, m, f)
  {
    EventMeans(total, c, o, f);
    EventIsTraffic(total, c, o);
  }

  lemma EventIsTraffic(total: nat, c: Call, o: Outcome)
    ensures EventOf(total, c, o).Traffic?
  {
  }

  /** All of the memory is accounted for: free, stashed, owned, or lost by one of the calls. */
  ghost predicate Conserved(total: nat, memory: seq<Block>, calls: seq<Call>, outcomes: seq<Outcome>, l: Ledger)
    requires |calls| == |outcomes|
  {
    && l.Keys == Covered(total, memory)
    && forall f | f in l :: l[f] != Moving && (l[f] == Leaked <==> exists i: nat :: i < |calls| && Loses(calls[i], outcomes[i], f))
  }

  lemma RecordOne(total: nat, managed: set<nat>, ledgers: seq<Ledger>, events: seq<Event>, booted: nat, calls: seq<Call>, outcomes: seq<Outcome>, m: Ledger, o: Outcome)
    requires Recorded(total, managed, ledgers, events, booted, calls, outcomes) && |outcomes| < |calls|
    requires var c := calls[|outcomes|]; Sound(total, c, o) && Step(ledgers[|events|], EventOf(total, c, o), m)
    ensures Recorded(total, managed, ledgers + [m], events + [EventOf(total, calls[|outcomes|], o)], booted, calls, outcomes + [o])
  {
    RunExtends(ledgers, events, EventOf(total, calls[|outcomes|], o), m);
    assert m.Keys == ledgers[|events|].Keys == managed;
  }

  lemma RecordSeparates(total: nat, managed: set<nat>, ledgers: seq<Ledger>, events: seq<Event>, booted: nat, calls: seq<Call>, outcomes: seq<Outcome>)
    requires Recorded(total, managed, ledgers, events, booted, calls, outcomes) && |outcomes| == |calls|
    ensures NeverTwoOwners(calls, outcomes)
  {
    forall i: nat, j: nat, f: nat | i < j < |calls| && HandsOut(calls[i], outcomes[i], f) && HandsOut(calls[j], outcomes[j], f)
      ensures exists k: nat :: i < k <= j && TakesBack(calls[k], outcomes[k], f)
    {
      EventMeans(total, calls[i], outcomes[i], f);
      EventMeans(total, calls[j], outcomes[j], f);
      NoDoubleHandOut(ledgers, events, f, booted + i, booted + j);
      var k: nat :| booted + i < k <= booted + j && Takes(events[k], f);
      EventMeans(total, calls[k - booted], outcomes[k - booted], f);
    }
  }

  lemma RecordStaysInMemory(total: nat, memory: seq<Block>, ledgers: seq<Ledger>, events: seq<Event>, booted: nat, calls: seq<Call>, outcomes: seq<Outcome>)
    requires Separate(total, memory)
    requires Recorded(total, Covered(total, memory), ledgers, events, booted, calls, outcomes) && |outcomes| == |calls|
    ensures FromMemory(memory, calls, outcomes)
  {
    forall i: nat, f: nat | i < |calls| && HandsOut(calls[i], outcomes[i], f)
      ensures exists j: nat :: j < |memory| && Covers(memory[j], f)
    {
      EventMeans(total, calls[i], outcomes[i], f);
      assert Step(ledgers[booted + i], events[booted + i], ledgers[booted + i + 1]);
      assert ledgers[booted + i].Keys == Covered(total, memory);
      assert f in ledgers[booted + i];
      CoveredIs(total, memory, f);
    }
  }

  /** The history of a booted allocator: the events of its calls so far lead to its ledger. */
  ghost predicate History(l: Ledger, total: nat, memory: seq<Block>, ledgers: seq<Ledger>, events: seq<Event>, calls: seq<Call>, outcomes: seq<Outcome>)
  {
    Recorded(total, Covered(total, memory), ledgers, events, |memory|, calls, outcomes) && ledgers[|events|] == l
  }

  method Advance(a: PageAllocator, ghost memory: seq<Block>, ghost ledgers: seq<Ledger>, ghost events: seq<Event>, calls: seq<Call>, outcomes: seq<Outcome>)
    returns (outcomes': seq<Outcome>, ghost ledgers': seq<Ledger>, ghost events': seq<Event>)
    requires a.Idle() && History(a.ledger, a.buddy.total, memory, ledgers, events, calls, outcomes) && |outcomes| < |calls|
    modifies a, a.buddy, a.refcount, a.pincount
    ensures a.Idle() && |outcomes'| == |outcomes| + 1
    ensures History(a.ledger, a.buddy.total, memory, ledgers', events', calls, outcomes')
  {
    var c := calls[|outcomes|];
    var o := Perform(a, c);
    RecordOne(a.buddy.total, Covered(a.buddy.total, memory), ledgers, events, |memory|, calls, outcomes, a.ledger, o);
    ledgers', events' := ledgers + [a.ledger], events + [EventOf(a.buddy.total, c, o)];
    outcomes' := outcomes + [o];
  }

  /** Whatever the memory map, the number of processors and the calls. */
  method Drive(total: nat, cpus: nat, memory: seq<Block>, calls: seq<Call>) returns (outcomes: seq<Outcome>)
    requires Separate(total, memory)
    ensures |outcomes| == |calls| && NeverTwoOwners(calls, outcomes) && FromMemory(memory, calls, outcomes)
  {
    var a;
    outcomes, a := DriveAndKeep(total, cpus, memory, calls);
  }

  /** The same with the allocator as it is left: no frame of the memory has gone missing. */
  method DriveAndKeep(total: nat, cpus: nat, memory: seq<Block>, calls: seq<Call>) returns (outcomes: seq<Outcome>, a: PageAllocator)
    requires Separate(total, memory)
    ensures |outcomes| == |calls| && NeverTwoOwners(calls, outcomes) && FromMemory(memory, calls, outcomes)
    ensures fresh(a) && a.Idle() && a.buddy.total == total && Conserved(total, memory, calls, outcomes, a.ledger)
  {
    ghost var ledgers, events;
    a, ledgers, events := Boot(total, cpus, memory);
    HistoryStarts(a.ledger, total, memory, ledgers, events, calls);
    outcomes, ledgers, events := Follow(a, memory, ledgers, events, calls);
    HistoryEnds(a.ledger, total, memory, ledgers, events, calls, outcomes);
  }

  lemma HistoryStarts(l: Ledger, total: nat, memory: seq<Block>, ledgers: seq<Ledger>, events: seq<Event>, calls: seq<Call>)
    requires Booted(l, total, memory) && Run(ledgers, events) && |events| == |memory| && ledgers[|memory|] == l
    ensures History(l, total, memory, ledgers, events, calls, [])
  {
    assert forall f | f in l :: f in At(l, AtBuddy);
  }

  lemma HistoryEnds(l: Ledger, total: nat, memory: seq<Block>, ledgers: seq<Ledger>, events: seq<Event>, calls: seq<Call>, outcomes: seq<Outcome>)
    requires Separate(total, memory) && History(l, total, memory, ledgers, events, calls, outcomes) && |outcomes| == |calls|
    requires At(l, Moving) == {}
    ensures NeverTwoOwners(calls, outcomes) && FromMemory(memory, calls, outcomes) && Conserved(total, memory, calls, outcomes, l)
  {
    forall f | f in l
      ensures l[f] != Moving && (l[f] == Leaked <==> exists i: nat :: i < |calls| && Loses(calls[i], outcomes[i], f))
    {
      assert f !in At(l, Moving);
      LostByCall(total, Covered(total, memory), ledgers, events, |memory|, calls, outcomes, f);
    }
    RecordSeparates(total, Covered(total, memory), ledgers, events, |memory|, calls, outcomes);
    RecordStaysInMemory(total, memory, ledgers, events, |memory|, calls, outcomes);
  }

  /** All calls in turn. */
  method Follow(a: PageAllocator, ghost memory: seq<Block>, ghost ledgers: seq<Ledger>, ghost events: seq<Event>, calls: seq<Call>)
    returns (outcomes: seq<Outcome>, ghost ledgers': seq<Ledger>, ghost events': seq<Event>)
    requires a.Idle() && History(a.ledger, a.buddy.total, memory, ledgers, events, calls, [])
    modifies a, a.buddy, a.refcount, a.pincount
    ensures |outcomes| == |calls| && a.Idle() && History(a.ledger, a.buddy.total, memory, ledgers', events', calls, outcomes)
  {
    outcomes, ledgers', events' := [], ledgers, events;
    while |outcomes| < |calls|
      invariant |outcomes| <= |calls| && a.Idle()
      invariant History(a.ledger, a.buddy.total, memory, ledgers', events', calls, outcomes)
    {
      outcomes, ledgers', events' := Advance(a, memory, ledgers', events', calls, outcomes);
    }
  }
}
