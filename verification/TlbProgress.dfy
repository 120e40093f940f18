/** That a TLB shootdown ends: where the descriptors it waits for are, and from every state of every
    run the steps that lead to its return. */
module TlbProgress {
  import opened TlbShootdown

  // ---------------------------------------------------------------- where a descriptor is

  /** Some CPU has the descriptor on its queue or in the list it works through. */
  ghost predicate Flying(s: State, id: SlotId)
    requires Shape(s)
  {
    exists e: nat :: e < s.n && id in InFlight(s.queue[e], s.recv[e])
  }

  ghost predicate Accounted(s: State)
    requires Shape(s)
  {
    forall c: nat, i: nat | c < s.n && Active(s.send[c].pc) && i < s.send[c].used ::
      SlotId(c, i) in s.slots && (s.slots[SlotId(c, i)].done || Flying(s, SlotId(c, i)))
  }

  /** The invlpg loop is inside its descriptor's range. */
  ghost predicate InLoop(slots: map<SlotId, Slot>, r: Recv)
  {
    r.RInval? ==> r.list != [] && r.list[0] in slots && slots[r.list[0]].start / PAGE_SIZE <= r.page
  }

  ghost predicate LoopsOk(s: State)
  {
    forall c: nat | c < |s.recv| :: InLoop(s.slots, s.recv[c])
  }

  ghost predicate Live(s: State)
  {
    Inv(s) && Accounted(s) && LoopsOk(s)
  }

  /** The senders wait for no more than before, and what they wait for is acknowledged or in flight. */
  lemma StaysAccounted(s: State, t: State)
    requires Shape(s) && Shape(t) && t.n == s.n && Accounted(s)
    requires forall c: nat | c < s.n && Active(t.send[c].pc) :: t.send[c].used == 0 || (Active(s.send[c].pc) && t.send[c].used <= s.send[c].used)
    requires forall id | id in s.slots :: id in t.slots && (s.slots[id].done ==> t.slots[id].done)
    requires forall id | id in s.slots && Flying(s, id) :: Flying(t, id) || t.slots[id].done
    ensures Accounted(t)
  {
  }

  lemma FlyingMoves(s: State, t: State, c: nat, id: SlotId)
    requires Shape(s) && Shape(t) && t.n == s.n && c < s.n && Flying(s, id)
    requires forall e: nat | e < s.n && e != c :: t.queue[e] == s.queue[e] && t.recv[e] == s.recv[e]
    requires id in InFlight(s.queue[c], s.recv[c]) ==> id in InFlight(t.queue[c], t.recv[c])
    ensures Flying(t, id)
  {
    var e: nat :| e < s.n && id in InFlight(s.queue[e], s.recv[e]);
    assert id in InFlight(t.queue[e], t.recv[e]);
  }

  predicate Receives(a: Action)
  {
    a.Detach? || a.Decide? || a.Ack? || a.StartSlot? || a.Invlpg? || a.EndDrain?
  }

  /** The descriptor that a receiver step acknowledges. */
  predicate Acks(s: State, a: Action, id: SlotId)
    requires Shape(s) && Enabled(s, a, true)
  {
    && (a.Ack? || (a.Invlpg? && s.recv[a.c].page * PAGE_SIZE >= s.slots[s.recv[a.c].list[0]].end))
    && id == s.recv[a.c].list[0]
  }

  /** A receiver keeps what it has been sent until it has acknowledged it. */
  lemma ReceiverKeeps(s: State, a: Action, id: SlotId)
    requires Inv(s) && Enabled(s, a, true) && Receives(a) && id in InFlight(s.queue[a.c], s.recv[a.c])
    ensures var t := Apply(s, a);
            && Shape(t) && t.n == s.n && id in t.slots
            && if Acks(s, a, id) then t.slots[id].done else id in InFlight(t.queue[a.c], t.recv[a.c])
  {
    var c, t := a.c, Apply(s, a);
    assert FlightOk(s.slots, s.send, c, id);
    if a.Detach? { ReversedMembers(s.queue[c]); }
  }

  lemma ReceiverFrame(s: State, a: Action)
    requires Shape(s) && Enabled(s, a, true) && Receives(a)
    ensures var t := Apply(s, a);
            && Shape(t) && t.n == s.n && t.send == s.send
            && (forall e: nat | e < s.n && e != a.c :: t.queue[e] == s.queue[e] && t.recv[e] == s.recv[e])
            && (forall id | id in s.slots :: id in t.slots && (s.slots[id].done ==> t.slots[id].done))
  {
  }

  lemma ReceiverAccounts(s: State, a: Action)
    requires Inv(s) && Accounted(s) && Enabled(s, a, true) && Receives(a)
    ensures Accounted(Apply(s, a))
  {
    var t := Apply(s, a);
    ReceiverFrame(s, a);
    forall id | id in s.slots && Flying(s, id)
      ensures Flying(t, id) || t.slots[id].done
    {
      if id in InFlight(s.queue[a.c], s.recv[a.c]) { ReceiverKeeps(s, a, id); }
      if !t.slots[id].done { FlyingMoves(s, t, a.c, id); }
    }
    StaysAccounted(s, t);
  }

  lemma PushAccounts(s: State, a: Action)
    requires Inv(s) && Accounted(s) && Enabled(s, a, true) && a.PushOne?
    ensures Accounted(Apply(s, a))
  {
    var c, x, t := a.c, s.send[a.c], Apply(s, a);
    var d, id := x.cursor, SlotId(a.c, x.used);
    forall w | Flying(s, w)
      ensures Flying(t, w)
    {
      FlyingMoves(s, t, d, w);
    }
    if d in x.targets && d != c {
      assert id in InFlight(t.queue[d], t.recv[d]);
    }
  }

  /** The other steps leave queues, lists and descriptors alone. */
  lemma OthersAccount(s: State, a: Action)
    requires Inv(s) && Accounted(s) && Enabled(s, a, true) && !Receives(a) && !a.PushOne?
    ensures Shape(Apply(s, a)) && Accounted(Apply(s, a)) && Apply(s, a).recv == s.recv
  {
    var t := Apply(s, a);
    ShapeKept(s, a);
    OthersFrame(s, a);
    forall id | Flying(s, id)
      ensures Flying(t, id)
    {
      FlyingMoves(s, t, a.c, id);
    }
    StaysAccounted(s, t);
  }

  lemma OthersFrame(s: State, a: Action)
    requires Shape(s) && Enabled(s, a, true) && !Receives(a) && !a.PushOne?
    ensures var t := Apply(s, a);
            && t.queue == s.queue && t.recv == s.recv && t.slots == s.slots && |t.send| == |s.send|
            && forall c: nat | c < s.n && Active(t.send[c].pc) :: t.send[c].used == 0 || (Active(s.send[c].pc) && t.send[c].used == s.send[c].used)
  {
  }

  lemma StepKeepsLoops(s: State, a: Action)
    requires Live(s) && Enabled(s, a, true)
    ensures LoopsOk(Apply(s, a))
  {
    if Receives(a) {
      ReceiverKeepsLoops(s, a);
    } else if a.PushOne? {
      PushKeepsLoops(s, a);
    } else {
      OthersFrame(s, a);
    }
  }

  lemma ReceiverKeepsLoops(s: State, a: Action)
    requires Live(s) && Enabled(s, a, true) && Receives(a)
    ensures LoopsOk(Apply(s, a))
  {
    var t := Apply(s, a);
    LoopFrame(s, a);
    OwnLoop(s, a);
    forall c: nat | c < |t.recv|
      ensures InLoop(t.slots, t.recv[c])
    {
      assert InLoop(s.slots, s.recv[c]);
    }
  }

  lemma LoopFrame(s: State, a: Action)
    requires Shape(s) && Enabled(s, a, true) && Receives(a)
    ensures var t := Apply(s, a);
            && |t.recv| == |s.recv| && (forall c: nat | c < |s.recv| && c != a.c :: t.recv[c] == s.recv[c])
            && forall id | id in s.slots :: id in t.slots && t.slots[id].start == s.slots[id].start
  {
  }

  lemma OwnLoop(s: State, a: Action)
    requires Shape(s) && LoopsOk(s) && Enabled(s, a, true) && Receives(a)
    ensures |Apply(s, a).recv| == s.n && InLoop(Apply(s, a).slots, Apply(s, a).recv[a.c])
  {
    assert InLoop(s.slots, s.recv[a.c]);
  }

  lemma PushKeepsLoops(s: State, a: Action)
    requires Live(s) && Enabled(s, a, true) && a.PushOne?
    ensures LoopsOk(Apply(s, a))
  {
    var t, id := Apply(s, a), SlotId(a.c, s.send[a.c].used);
    NextSlotIsIdle(s, a.c);
    assert t.recv == s.recv && forall x | x in s.slots && x != id :: x in t.slots && t.slots[x] == s.slots[x];
    forall c: nat | c < |t.recv|
      ensures InLoop(t.slots, t.recv[c])
    {
      assert InLoop(s.slots, s.recv[c]);
      if s.recv[c].RInval? { assert s.recv[c].list[0] in InFlight(s.queue[c], s.recv[c]); }
    }
  }

  lemma StepKeepsLive(s: State, a: Action)
    requires Live(s) && Enabled(s, a, true)
    ensures Live(Apply(s, a)) && Apply(s, a).n == s.n
  {
    StepKeepsInv(s, a);
    StepKeepsLoops(s, a);
    if Receives(a) {
      ReceiverAccounts(s, a);
    } else if a.PushOne? {
      PushAccounts(s, a);
    } else {
      OthersAccount(s, a);
    }
  }

  lemma {:induction false} ReachableLive(n: nat, s: State, k: nat)
    requires Reachable(n, s, k, true)
    ensures Live(s) && s.n == n
    decreases k
  {
    if k == 0 {
      InitInv(n);
    } else {
      var r, a :| Reachable(n, r, k - 1, true) && Next(r, a, s, true);
      ReachableLive(n, r, k - 1);
      StepKeepsLive(r, a);
    }
  }

  /** In every reachable state, a descriptor that a sender has pushed and not yet forgotten is
      acknowledged, or one CPU and no other still has it. */
  lemma SentIsDoneOrInFlight(n: nat, s: State, k: nat, c: nat, i: nat)
    requires Reachable(n, s, k, true) && Shape(s) && c < s.n && Active(s.send[c].pc) && i < s.send[c].used
    ensures SlotId(c, i) in s.slots && (s.slots[SlotId(c, i)].done <==> !Flying(s, SlotId(c, i)))
    ensures forall d: nat, e: nat | d < s.n && e < s.n && SlotId(c, i) in InFlight(s.queue[d], s.recv[d])
                                    && SlotId(c, i) in InFlight(s.queue[e], s.recv[e]) :: d == e
  {
    ReachableLive(n, s, k);
    forall e: nat | e < s.n && SlotId(c, i) in InFlight(s.queue[e], s.recv[e])
      ensures FlightOk(s.slots, s.send, e, SlotId(c, i))
    {
    }
  }

  /** So a sender that waits goes on as soon as nobody has one of its descriptors any more. */
  lemma WaitEnds(n: nat, s: State, k: nat, c: nat)
    requires Reachable(n, s, k, true) && Shape(s) && c < s.n && s.send[c].pc == Wait
    requires forall i: nat | i < s.send[c].used :: !Flying(s, SlotId(c, i))
    ensures Enabled(s, WaitOne(c), true) || Enabled(s, Return(c), true)
  {
    ReachableLive(n, s, k);
    assert SendOk(s.n, s.pte, s.slots, c, s.send[c]);
  }

  // ---------------------------------------------------------------- a receiver at work

  /** What CPU `c` does next about its descriptors. */
  function Work(s: State, c: nat): (a: Action)
    requires Shape(s) && c < s.n
    ensures a.c == c && Receives(a)
  {
    match s.recv[c]
    case RIdle => Detach(c)
    case RScan(_) => Decide(c)
    case RAckAll(list) => if list == [] then EndDrain(c) else Ack(c)
    case RSlots(list) => if list == [] then EndDrain(c) else StartSlot(c)
    case RInval(_, _) => Invlpg(c)
  }

  function Rank(r: Recv): nat
  {
    match r
    case RIdle => 3
    case RScan(list) => if list == [] then 5 else 2
    case RAckAll(list) => if list == [] then 4 else 1
    case RSlots(list) => if list == [] then 4 else 1
    case RInval(_, _) => 0
  }

  function PagesLeft(s: State, r: Recv): nat
  {
    if r.RInval? && r.list != [] && r.list[0] in s.slots && r.page * PAGE_SIZE < s.slots[r.list[0]].end
    then s.slots[r.list[0]].end - r.page * PAGE_SIZE else 0
  }

  /** A CPU with descriptors can always go on, and comes nearer to having none. */
  lemma WorkIsEnabled(s: State, c: nat)
    requires Live(s) && c < s.n && InFlight(s.queue[c], s.recv[c]) != []
    ensures Enabled(s, Work(s, c), true)
  {
    forall id | id in Chain(s.recv[c])
      ensures id in s.slots
    {
      assert id in InFlight(s.queue[c], s.recv[c]);
      assert FlightOk(s.slots, s.send, c, id);
    }
    if !s.recv[c].RIdle? && s.recv[c].list != [] { assert s.recv[c].list[0] in Chain(s.recv[c]); }
  }

  lemma WorkProgresses(s: State, c: nat)
    requires Live(s) && c < s.n && InFlight(s.queue[c], s.recv[c]) != [] && Enabled(s, Work(s, c), true)
    ensures var t := Apply(s, Work(s, c));
            && Shape(t) && t.n == s.n
            && var m, m' := |InFlight(s.queue[c], s.recv[c])|, |InFlight(t.queue[c], t.recv[c])|;
              || m' < m || (m' == m && Rank(t.recv[c]) < Rank(s.recv[c]))
              || (m' == m && Rank(t.recv[c]) == Rank(s.recv[c]) && PagesLeft(t, t.recv[c]) < PagesLeft(s, s.recv[c]))
  {
    var t := Apply(s, Work(s, c));
    ReversedMembers(s.queue[c]);
    if s.recv[c].RIdle? {
      assert t.recv[c] == RScan(Reversed(s.queue[c]));
    } else if s.recv[c].RInval? {
      var r := s.recv[c];
      if r.page * PAGE_SIZE < s.slots[r.list[0]].end {
        assert t.recv[c] == RInval(r.list, r.page + 1) && t.slots == s.slots;
      } else {
        assert t.recv[c] == RSlots(r.list[1..]);
      }
    }
  }

  /** CPU `c` works off all it has been sent. */
  lemma Drain(P: State -> bool, s: State, c: nat) returns (t: State)
    requires Closed(P, true) && P(s) && Live(s) && c < s.n
    ensures P(t) && Live(t) && t.n == s.n && t.send == s.send && InFlight(t.queue[c], t.recv[c]) == []
    ensures forall e: nat | e < s.n && e != c :: t.queue[e] == s.queue[e] && t.recv[e] == s.recv[e]
    decreases |InFlight(s.queue[c], s.recv[c])|, Rank(s.recv[c]), PagesLeft(s, s.recv[c])
  {
    if InFlight(s.queue[c], s.recv[c]) == [] {
      t := s;
    } else {
      var a := Work(s, c);
      WorkIsEnabled(s, c);
      WorkProgresses(s, c);
      ReceiverFrame(s, a);
      StepKeepsLive(s, a);
      t := Go(P, true, s, a);
      t := Drain(P, t, c);
    }
  }

  lemma DrainAll(P: State -> bool, s: State, m: nat) returns (t: State)
    requires Closed(P, true) && P(s) && Live(s) && m <= s.n
    ensures P(t) && Live(t) && t.n == s.n && t.send == s.send
    ensures forall e: nat | e < m :: InFlight(t.queue[e], t.recv[e]) == []
    decreases m
  {
    t := s;
    if m > 0 {
      t := DrainAll(P, s, m - 1);
      t := Drain(P, t, m - 1);
    }
  }

  // ---------------------------------------------------------------- a sender at work

  /** The same request, with at least the stores that had been made. */
  ghost predicate SameRequest(x: Send, y: Send)
  {
    && y.mm == x.mm && y.start == x.start && y.end == x.end
    && forall p | p in x.floor || p in x.buffered :: p in y.floor && (p in x.floor ==> x.floor[p] <= y.floor[p])
  }

  lemma Step(P: State -> bool, s: State, a: Action) returns (t: State)
    requires Closed(P, true) && P(s) && Live(s) && Enabled(s, a, true)
    ensures P(t) && Live(t) && t.n == s.n && t == Apply(s, a)
  {
    StepKeepsLive(s, a);
    t := Go(P, true, s, a);
  }

  lemma Empty(P: State -> bool, s: State, c: nat) returns (t: State)
    requires Closed(P, true) && P(s) && Live(s) && c < s.n && s.send[c].pc == Prep
    ensures P(t) && Live(t) && t.n == s.n && t.send[c].pc == Prep && t.send[c].buffered == {}
    ensures SameRequest(s.send[c], t.send[c])
    decreases s.send[c].buffered
  {
    t := s;
    if s.send[c].buffered != {} {
      var p :| p in s.send[c].buffered;
      assert SendOk(s.n, s.pte, s.slots, c, s.send[c]);
      t := Step(P, s, TlbShootdown.Drain(c, p));
      t := Empty(P, t, c);
    }
  }

  lemma PushAll(P: State -> bool, s: State, c: nat) returns (t: State)
    requires Closed(P, true) && P(s) && Live(s) && c < s.n && s.send[c].pc == Push
    ensures P(t) && Live(t) && t.n == s.n && t.send[c].pc == Push && t.send[c].cursor == s.n
    ensures t.send[c].mm == s.send[c].mm && t.send[c].start == s.send[c].start && t.send[c].end == s.send[c].end
    ensures t.send[c].floor == s.send[c].floor && t.send[c].buffered == s.send[c].buffered
    decreases s.n - s.send[c].cursor
  {
    assert SendOk(s.n, s.pte, s.slots, c, s.send[c]);
    t := s;
    if s.send[c].cursor < s.n {
      t := Step(P, s, PushOne(c));
      t := PushAll(P, t, c);
    }
  }

  lemma WaitAll(P: State -> bool, s: State, c: nat) returns (t: State)
    requires Closed(P, true) && P(s) && Live(s) && c < s.n && s.send[c].pc == Wait
    requires forall e: nat | e < s.n :: InFlight(s.queue[e], s.recv[e]) == []
    ensures P(t) && Live(t) && t.n == s.n && Enabled(t, Return(c), true) && t.send[c] == s.send[c].(waited := s.send[c].used)
    decreases s.send[c].used - s.send[c].waited
  {
    assert SendOk(s.n, s.pte, s.slots, c, s.send[c]);
    t := s;
    if s.send[c].waited < s.send[c].used {
      assert !Flying(s, SlotId(c, s.send[c].waited));
      t := Step(P, s, WaitOne(c));
      t := WaitAll(P, t, c);
    }
  }

  /** From the mask read on. */
  lemma FromPush(P: State -> bool, s: State, c: nat) returns (t: State)
    requires Closed(P, true) && P(s) && Live(s) && c < s.n && Active(s.send[c].pc)
    ensures P(t) && Live(t) && t.n == s.n && Enabled(t, Return(c), true)
    ensures SameRequest(s.send[c], t.send[c])
  {
    assert SendOk(s.n, s.pte, s.slots, c, s.send[c]);
    t := s;
    if t.send[c].pc == Push {
      t := PushAll(P, t, c);
      t := Step(P, t, PushDone(c));
    }
    if t.send[c].pc == Self { t := Step(P, t, SelfFlush(c)); }
    t := DrainAll(P, t, t.n);
    t := WaitAll(P, t, c);
  }

  lemma FromStart(P: State -> bool, s: State, c: nat) returns (t: State)
    requires Closed(P, true) && P(s) && Live(s) && c < s.n && s.send[c].pc != Idle
    ensures P(t) && Live(t) && t.n == s.n && Enabled(t, Return(c), true)
    ensures SameRequest(s.send[c], t.send[c])
  {
    t := s;
    if t.send[c].pc == Prep {
      t := Empty(P, t, c);
      t := Step(P, t, Fence(c));
    }
    if t.send[c].pc == Fenced {
      assert SendOk(t.n, t.pte, t.slots, c, t.send[c]);
      t := Step(P, t, Snapshot(c));
    }
    t := FromPush(P, t, c);
  }

  ghost function After(s: State): State -> bool
  {
    t => exists j: nat :: Later(s, t, j)
  }

  lemma AfterIsClosed(s: State)
    ensures Closed(After(s), true) && After(s)(s)
  {
    assert Later(s, s, 0);
    forall r, a, t | After(s)(r) && Next(r, a, t, true)
      ensures After(s)(t)
    {
      var j: nat :| Later(s, r, j);
      assert Later(s, t, j + 1);
    }
  }

  /** From every reachable state, a shootdown that has begun can be brought to its return: the CPUs
      it waits for can always acknowledge. */
  lemma EveryShootdownCanReturn(n: nat, s: State, k: nat, c: nat) returns (t: State, j: nat)
    requires Reachable(n, s, k, true) && Shape(s) && c < s.n && s.send[c].pc != Idle
    ensures Later(s, t, j) && Shape(t) && t.n == s.n && Enabled(t, Return(c), true) && SameRequest(s.send[c], t.send[c])
  {
    ReachableLive(n, s, k);
    AfterIsClosed(s);
    t := FromStart(After(s), s, c);
    j :| Later(s, t, j);
  }

  /** From every reachable state, a CPU without a shootdown under way can ask for any range of any
      address space, the whole of it too, and have it done. */
  lemma AnyRequestCanReturn(n: nat, s: State, k: nat, c: nat, mm: nat, start: nat, end: nat) returns (t: State, j: nat)
    requires Reachable(n, s, k, true) && Shape(s) && c < s.n && s.send[c].pc == Idle && mm != KERNEL_MM
    ensures Later(s, t, j) && Shape(t) && t.n == s.n && Enabled(t, Return(c), true)
    ensures t.send[c].mm == mm && t.send[c].start == start && t.send[c].end == end
  {
    ReachableLive(n, s, k);
    AfterIsClosed(s);
    t := Step(After(s), s, Begin(c, mm, start, end));
    t := FromStart(After(s), t, c);
    j :| Later(s, t, j);
  }

  // ---------------------------------------------------------------- the mask

  /** The mask of an address space: the CPUs that run it, and those that have announced it and not
      yet loaded it; a CPU between the two updates is in no mask. */
  ghost predicate MaskIs(s: State)
  {
    && Shape(s)
    && forall m: nat, c: nat :: (m, c) in s.mask <==>
         c < s.n && m != KERNEL_MM && if s.sw[c].Running? then s.cr3[c] == m else s.sw[c] == Marked(m)
  }

  lemma StepKeepsMask(s: State, a: Action)
    requires MaskIs(s) && Enabled(s, a, false)
    ensures MaskIs(Apply(s, a))
  {
    var t := Apply(s, a);
    assert Shape(t) && t.n == s.n;
    if !a.ClearBit? && !a.SetBit? && !a.LoadCr3? {
      assert t.mask == s.mask && t.sw == s.sw && t.cr3 == s.cr3;
    }
  }

  lemma {:induction false} MaskIsExact(n: nat, s: State, k: nat, fenced: bool)
    requires Reachable(n, s, k, fenced)
    ensures MaskIs(s)
    decreases k
  {
    if k > 0 {
      var r, a :| Reachable(n, r, k - 1, fenced) && Next(r, a, s, fenced);
      MaskIsExact(n, r, k - 1, fenced);
      StepKeepsMask(r, a);
    }
  }

  // ---------------------------------------------------------------- one shootdown in full

  /** CPU 0's shootdown of page 0 of mm 1, sent to CPU 1. */
  function Told(pc: Pc, cursor: nat, used: nat, waited: nat): Send
  {
    Send(pc, 1, 0, 4096, {}, map[0 := 1], {1}, cursor, used, false, waited)
  }

  const First := SlotId(0, 0)

  lemma Tell(P: State -> bool, r: State) returns (s: State)
    requires Closed(P, true) && P(r) && Cached(r) && r.send[0] == NoSend && r.mask == {(1, 1)} && r.queue == [[], []] && r.recv == [RIdle, RIdle]
    ensures P(s) && StillCached(s) && s.send[0] == Told(Push, 2, 1, 0) && s.queue[1] == [First] && s.recv[1] == RIdle
    ensures First in s.slots && s.slots[First] == Slot(0, 4096, false, 1)
  {
    s := Go(P, true, r, Begin(0, 1, 0, 4096));
    s := Go(P, true, s, Store(0, 0));
    s := Go(P, true, s, TlbShootdown.Drain(0, 0));
    s := Go(P, true, s, Fence(0));
    s := Go(P, true, s, Snapshot(0));
    assert s.send[0].targets == {1};
    s := Go(P, true, s, PushOne(0));
    s := Go(P, true, s, PushOne(0));
  }

  /** CPU 1 still runs mm 1 with page 0 at version 0, which has become version 1. */
  predicate StillCached(s: State)
  {
    Shape(s) && s.n == 2 && s.cr3[1] == 1 && s.sw[1].Running? && 0 in s.tlb[1] && s.tlb[1][0] == 0 && Ver(s.pte, 1, 0) == 1
  }

  lemma Receive(P: State -> bool, r: State) returns (s: State)
    requires Closed(P, true) && P(r) && StillCached(r) && r.send[0] == Told(Push, 2, 1, 0) && r.queue[1] == [First] && r.recv[1] == RIdle
    requires First in r.slots && r.slots[First] == Slot(0, 4096, false, 1)
    ensures P(s) && StillCached(s) && s.send[0] == Told(Wait, 2, 1, 0) && s.recv[1] == RInval([First], 0)
    ensures First in s.slots && s.slots[First] == Slot(0, 4096, false, 1)
  {
    s := Go(P, true, r, PushDone(0));
    s := Go(P, true, s, SelfFlush(0));
    s := Go(P, true, s, Detach(1));
    assert Reversed([First]) == [First] by { assert [First][1..] == []; }
    assert s.recv[1] == RScan([First]);
    NeedFullIff(s.slots, [First], 0);
    assert Total(s.slots, [First]) == 1 by { assert [First][1..] == []; }
    s := Go(P, true, s, Decide(1));
    s := Go(P, true, s, StartSlot(1));
  }

  /** CPU 1 drops the page and acknowledges, and CPU 0 sees it. */
  lemma Answer(P: State -> bool, r: State) returns (s: State)
    requires Closed(P, true) && P(r) && StillCached(r) && r.send[0] == Told(Wait, 2, 1, 0) && r.recv[1] == RInval([First], 0)
    requires First in r.slots && r.slots[First] == Slot(0, 4096, false, 1)
    ensures P(s) && Shape(s) && s.n == 2 && s.send[0] == Told(Wait, 2, 1, 1) && s.cr3[1] == 1 && s.sw[1].Running? && 0 !in s.tlb[1]
  {
    s := Go(P, true, r, Invlpg(1));
    s := Go(P, true, s, Invlpg(1));
    assert s.recv[1] == RSlots([]);
    s := Go(P, true, s, EndDrain(1));
    s := Go(P, true, s, WaitOne(0));
  }

  lemma RunsWithMask(P: State -> bool) returns (s: State)
    requires Closed(P, true) && P(Init(2))
    ensures P(s) && Cached(s) && s.send[0] == NoSend && s.mask == {(1, 1)} && s.queue == [[], []] && s.recv == [RIdle, RIdle]
  {
    s := Go(P, true, Init(2), ClearBit(1, 1));
    s := Go(P, true, s, SetBit(1));
    s := Go(P, true, s, LoadCr3(1));
    s := Go(P, true, s, Walk(1, 0));
  }

  /** A shootdown with one remote target: CPU 1, which runs the mm and has the page cached,
      acknowledges and no longer has it when CPU 0 returns. */
  lemma RemoteTargetAcknowledges() returns (s: State, k: nat)
    ensures Reachable(2, s, k, true) && Shape(s) && s.n == 2 && s.send[0].used == 1 && Enabled(s, Return(0), true)
    ensures s.sw[1].Running? && s.cr3[1] == s.send[0].mm == 1 && 0 in s.send[0].floor && 0 !in s.tlb[1]
  {
    var P := Reaches(true);
    ReachesIsClosed(true);
    s := RunsWithMask(P);
    s := Tell(P, s);
    s := Receive(P, s);
    s := Answer(P, s);
    k :| Reachable(2, s, k, true);
  }

  /** The promise is about the stores before the shootdown: a store of another CPU after it, without
      a shootdown of its own, leaves CPU 1 with an old translation. */
  lemma LaterStoreGoesStale() returns (s: State, k: nat)
    ensures Reachable(2, s, k, true) && Shape(s) && s.n == 2 && s.send[0].pc == Idle && s.sw[1].Running? && s.cr3[1] == 1
    ensures 0 in s.tlb[1] && s.tlb[1][0] + 1 == Ver(s.pte, 1, 0)
  {
    var P := Reaches(true);
    ReachesIsClosed(true);
    var j;
    s, j := RemoteTargetAcknowledges();
    s := ThenStores(P, s);
    k :| Reachable(2, s, k, true);
  }

  lemma ThenStores(P: State -> bool, r: State) returns (s: State)
    requires Closed(P, true) && P(r) && Shape(r) && r.n == 2 && Enabled(r, Return(0), true) && r.sw[1].Running? && r.cr3[1] == 1
    ensures P(s) && Shape(s) && s.n == 2 && s.send[0].pc == Idle && s.sw[1].Running? && s.cr3[1] == 1
    ensures 0 in s.tlb[1] && s.tlb[1][0] + 1 == Ver(s.pte, 1, 0)
  {
    s := Go(P, true, r, Return(0));
    s := Go(P, true, s, Walk(1, 0));
    assert s.tlb[1][0] == Ver(s.pte, 1, 0);
    s := Go(P, true, s, OtherStore(0, 1, 0));
  }

  // ---------------------------------------------------------------- no needless flush

  /** The pages that a list of requests asks for, each request on its own. */
  function Total(slots: map<SlotId, Slot>, list: seq<SlotId>): nat
  {
    if list == [] then 0
    else
      (if list[0] in slots && !WantsFull(slots[list[0]].start, slots[list[0]].end)
       then Span(slots[list[0]].start, slots[list[0]].end) else 0)
      + Total(slots, list[1..])
  }

  /** The scan asks for one full flush exactly when some request does, or all together are for more
      pages than the ceiling. */
  lemma {:induction false} NeedFullIff(slots: map<SlotId, Slot>, list: seq<SlotId>, total: nat)
    requires (forall id | id in list :: id in slots) && total <= INVLPG_CEILING
    ensures NeedFull(slots, list, total)
            <==> (exists id :: id in list && WantsFull(slots[id].start, slots[id].end)) || total + Total(slots, list) > INVLPG_CEILING
  {
    if list != [] {
      var x := slots[list[0]];
      if !WantsFull(x.start, x.end) && total + Span(x.start, x.end) <= INVLPG_CEILING {
        NeedFullIff(slots, list[1..], total + Span(x.start, x.end));
        assert forall id :: id in list <==> id == list[0] || id in list[1..];
      } else if WantsFull(x.start, x.end) {
        assert list[0] in list;
      }
    }
  }

  /** A listed request asks for page `p`, or they are too many for single pages. */
  ghost predicate AskedFor(slots: map<SlotId, Slot>, list: seq<SlotId>, p: nat)
  {
    || (exists id :: id in list && id in slots && Covers(slots[id].start, slots[id].end, p))
    || Total(slots, list) > INVLPG_CEILING
  }

  /** A step of CPU `c` that may drop page `p`: a CR3 write, its own request, or those it was sent. */
  ghost predicate MayDrop(s: State, a: Action, p: nat)
    requires Shape(s) && a.c < s.n
  {
    var x := s.send[a.c];
    || a.LoadCr3?
    || (a.SelfFlush? && x.selfHit && (Covers(x.start, x.end, p) || (x.start <= x.end && Span(x.start, x.end) > INVLPG_CEILING)))
    || ((a.Decide? || a.Invlpg?) && AskedFor(s.slots, Chain(s.recv[a.c]), p))
  }

  lemma ListedIsKnown(s: State, c: nat)
    requires Inv(s) && c < s.n && !s.recv[c].RIdle?
    ensures forall id | id in s.recv[c].list :: id in s.slots
  {
    forall id | id in s.recv[c].list
      ensures id in s.slots
    {
      assert id in InFlight(s.queue[c], s.recv[c]);
      assert FlightOk(s.slots, s.send, c, id);
    }
  }

  lemma DecideIsAskedFor(s: State, a: Action, c: nat, p: nat)
    requires Live(s) && a.Decide? && Enabled(s, a, true) && c < s.n && p in s.tlb[c]
    ensures Shape(Apply(s, a)) && Apply(s, a).n == s.n
    ensures p !in Apply(s, a).tlb[c] ==> a.c == c && MayDrop(s, a, p)
  {
    ListedIsKnown(s, a.c);
    NeedFullIff(s.slots, s.recv[a.c].list, 0);
  }

  lemma InvlpgIsAskedFor(s: State, a: Action, c: nat, p: nat)
    requires Live(s) && a.Invlpg? && Enabled(s, a, true) && c < s.n && p in s.tlb[c]
    ensures Shape(Apply(s, a)) && Apply(s, a).n == s.n
    ensures p !in Apply(s, a).tlb[c] ==> a.c == c && MayDrop(s, a, p)
  {
    ListedIsKnown(s, a.c);
    assert InLoop(s.slots, s.recv[a.c]);
    assert s.recv[a.c].list[0] in s.recv[a.c].list;
  }

  lemma OthersAreAskedFor(s: State, a: Action, c: nat, p: nat)
    requires Shape(s) && !a.Decide? && !a.Invlpg? && Enabled(s, a, true) && c < s.n && p in s.tlb[c]
    ensures Shape(Apply(s, a)) && Apply(s, a).n == s.n
    ensures p !in Apply(s, a).tlb[c] ==> a.c == c && MayDrop(s, a, p)
  {
    ShapeKept(s, a);
  }

  /** A translation leaves a TLB only in a CR3 write, or because a request asks for it. */
  lemma DroppedIsAskedFor(n: nat, s: State, k: nat, a: Action, c: nat, p: nat)
    requires Reachable(n, s, k, true) && Shape(s) && Enabled(s, a, true) && c < s.n && p in s.tlb[c]
    ensures Shape(Apply(s, a)) && Apply(s, a).n == s.n
    ensures p !in Apply(s, a).tlb[c] ==> a.c == c && MayDrop(s, a, p)
  {
    ReachableLive(n, s, k);
    if a.Decide? {
      DecideIsAskedFor(s, a, c, p);
    } else if a.Invlpg? {
      InvlpgIsAskedFor(s, a, c, p);
    } else {
      OthersAreAskedFor(s, a, c, p);
    }
  }
}
