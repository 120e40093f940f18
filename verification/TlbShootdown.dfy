/** TLB shootdown as a state machine over every interleaving of senders, receivers, context
    switches and page walks on any number of CPUs.

    A page-table entry is modelled by a version number that every store to it increases, and
    a TLB entry by the version it was filled from.  A sender's stores wait in its store
    buffer until they drain; `floor` remembers, per page, the version its own store made.
    A translation is stale for a sender when it is older than the sender's floor. */
module TlbShootdown {

  const PAGE_SIZE: nat := 4096
  const INVLPG_CEILING: nat := 32
  const MAX_CPUS: nat := 64
  const KERNEL_MM: nat := 0   // kernel threads: no user mappings, no mask bit

  // ---------------------------------------------------------------- flush requests

  predicate WantsFull(start: nat, end: nat)
  {
    end == 0 || end <= start
  }

  function Span(start: nat, end: nat): nat
    requires start <= end
  {
    (end - start + PAGE_SIZE - 1) / PAGE_SIZE
  }

  /** The request asks for page `p` to be invalidated: the page touches the range, or the
      request is for everything. */
  predicate Covers(start: nat, end: nat, p: nat)
  {
    WantsFull(start, end) || (p * PAGE_SIZE < end && start < (p + 1) * PAGE_SIZE)
  }

  // ---------------------------------------------------------------- state

  datatype SlotId = SlotId(sender: nat, idx: nat)
  datatype Slot = Slot(start: nat, end: nat, done: bool, target: nat)

  /** do_switch: clear the old mm's bit, set the new mm's bit, write CR3. */
  datatype Switch = Running | Cleared(next: nat) | Marked(next: nat)

  /** tlb_shootdown_drain */
  datatype Recv =
    | RIdle
    | RScan(list: seq<SlotId>)               // detached and reversed
    | RAckAll(list: seq<SlotId>)             // one full flush done, acks left
    | RSlots(list: seq<SlotId>)              // slot by slot
    | RInval(list: seq<SlotId>, page: nat)   // inside the first slot's invlpg loop

  /** tlb_flush_common and the page-table stores of its caller */
  datatype Pc = Idle | Prep | Fenced | Push | Self | Wait
  datatype Send = Send(pc: Pc, mm: nat, start: nat, end: nat, buffered: set<nat>, floor: map<nat, nat>,
                       targets: set<nat>, cursor: nat, used: nat, selfHit: bool, waited: nat)

  const NoSend := Send(Idle, 0, 0, 0, {}, map[], {}, 0, 0, false, 0)

  datatype State = State(n: nat, pte: map<(nat, nat), nat>, mask: set<(nat, nat)>,
                         cr3: seq<nat>, sw: seq<Switch>, tlb: seq<map<nat, nat>>,
                         queue: seq<seq<SlotId>>, slots: map<SlotId, Slot>,
                         recv: seq<Recv>, send: seq<Send>)

  function Ver(pte: map<(nat, nat), nat>, m: nat, p: nat): nat
  {
    if (m, p) in pte then pte[(m, p)] else 0
  }

  function Init(n: nat): State
  {
    State(n, map[], {}, seq(n, c => KERNEL_MM), seq(n, c => Running), seq(n, c => map[]),
          seq(n, c => []), map[], seq(n, c => RIdle), seq(n, c => NoSend))
  }

  predicate Shape(s: State)
  {
    && s.n <= MAX_CPUS
    && |s.cr3| == |s.sw| == |s.tlb| == |s.queue| == |s.recv| == |s.send| == s.n
  }

  // ---------------------------------------------------------------- steps

  datatype Action =
    | Begin(c: nat, mm: nat, start: nat, end: nat)
    | Store(c: nat, p: nat) | Drain(c: nat, p: nat)
    | Fence(c: nat) | Snapshot(c: nat) | PushOne(c: nat) | PushDone(c: nat)
    | SelfFlush(c: nat) | WaitOne(c: nat) | Return(c: nat)
    | Detach(c: nat) | Decide(c: nat) | Ack(c: nat) | StartSlot(c: nat) | Invlpg(c: nat) | EndDrain(c: nat)
    | ClearBit(c: nat, next: nat) | SetBit(c: nat) | LoadCr3(c: nat)
    | Walk(c: nat, p: nat) | OtherStore(c: nat, mm: nat, p: nat)

  function Reversed<T>(s: seq<T>): seq<T>
  {
    if s == [] then [] else Reversed(s[1..]) + [s[0]]
  }

  /** The receiver's coalescing scan. */
  predicate NeedFull(slots: map<SlotId, Slot>, list: seq<SlotId>, total: nat)
    requires forall id | id in list :: id in slots
  {
    if list == [] then false
    else
      var x := slots[list[0]];
      if WantsFull(x.start, x.end) then true
      else if total + Span(x.start, x.end) > INVLPG_CEILING then true
      else NeedFull(slots, list[1..], total + Span(x.start, x.end))
  }

  /** `fenced` says whether the StoreLoad fence before the mask read is in place. */
  predicate Enabled(s: State, a: Action, fenced: bool)
    requires Shape(s)
  {
    && a.c < s.n
    && match a
       case Begin(c, mm, start, end) => s.send[c].pc == Idle && mm != KERNEL_MM
       case Store(c, p) => s.send[c].pc == Prep
       case Drain(c, p) => p in s.send[c].buffered
       case Fence(c) => s.send[c].pc == Prep && (fenced ==> s.send[c].buffered == {})
       case Snapshot(c) => s.send[c].pc == Fenced
       case PushOne(c) => s.send[c].pc == Push && s.send[c].cursor < s.n
       case PushDone(c) => s.send[c].pc == Push && s.send[c].cursor == s.n
       case SelfFlush(c) => s.send[c].pc == Self
       case WaitOne(c) =>
         && s.send[c].pc == Wait && s.send[c].waited < s.send[c].used
         && var id := SlotId(c, s.send[c].waited); id in s.slots && s.slots[id].done
       case Return(c) => s.send[c].pc == Wait && s.send[c].waited == s.send[c].used
       case Detach(c) => s.recv[c].RIdle?
       case Decide(c) => s.recv[c].RScan? && forall id | id in s.recv[c].list :: id in s.slots
       case Ack(c) => s.recv[c].RAckAll? && HasFirst(s, c)
       case StartSlot(c) => s.recv[c].RSlots? && HasFirst(s, c)
       case Invlpg(c) => s.recv[c].RInval? && HasFirst(s, c)
       case EndDrain(c) => (s.recv[c].RAckAll? || s.recv[c].RSlots?) && s.recv[c].list == []
       case ClearBit(c, next) => s.sw[c].Running?
       case SetBit(c) => s.sw[c].Cleared?
       case LoadCr3(c) => s.sw[c].Marked?
       case Walk(c, p) => true
       case OtherStore(c, mm, p) => true
  }

  function TlbWithout(t: map<nat, nat>, start: nat, end: nat): map<nat, nat>
  {
    map p | p in t && !Covers(start, end, p) :: t[p]
  }

  /** What a TLB keeps after a request: nothing after a CR3 reload, else what is not covered. */
  function AfterFlush(t: map<nat, nat>, start: nat, end: nat): map<nat, nat>
  {
    if WantsFull(start, end) || Span(start, end) > INVLPG_CEILING then map[] else TlbWithout(t, start, end)
  }

  /** tlb_do_flush: the invlpg loop drops exactly the pages that touch the range. */
  method FlushLocal(t: map<nat, nat>, start: nat, end: nat) returns (r: map<nat, nat>)
    ensures r == AfterFlush(t, start, end)
    ensures end <= start || end - start > 32 * 4096 ==> r == map[]
    ensures start < end && end - start <= 32 * 4096 ==>
              r.Keys == set p | p in t && !(p * 4096 < end && start < (p + 1) * 4096)
  {
    if end == 0 || end <= start { return map[]; }
    var span := (end - start + PAGE_SIZE - 1) / PAGE_SIZE;
    if span > INVLPG_CEILING { return map[]; }
    r := t;
    var va := start - start % PAGE_SIZE;
    while va < end
      invariant va % PAGE_SIZE == 0 && start - start % PAGE_SIZE <= va < end + PAGE_SIZE
      invariant r == map p | p in t && !(start / PAGE_SIZE <= p < va / PAGE_SIZE) :: t[p]
      decreases end + PAGE_SIZE - va
    {
      r := r - {va / PAGE_SIZE};
      va := va + PAGE_SIZE;
    }
  }

  function Acked(s: State, id: SlotId): map<SlotId, Slot>
    requires id in s.slots
  {
    s.slots[id := s.slots[id].(done := true)]
  }

  // Sender

  function DoBegin(s: State, c: nat, mm: nat, start: nat, end: nat): State
    requires Shape(s) && c < s.n
  {
    s.(send := s.send[c := Send(Prep, mm, start, end, {}, map[], {}, 0, 0, false, 0)])
  }

  function DoStore(s: State, c: nat, p: nat): State
    requires Shape(s) && c < s.n
  {
    s.(send := s.send[c := s.send[c].(buffered := s.send[c].buffered + {p})])
  }

  function DoDrain(s: State, c: nat, p: nat): State
    requires Shape(s) && c < s.n
  {
    var v := Ver(s.pte, s.send[c].mm, p) + 1;
    s.(pte := s.pte[(s.send[c].mm, p) := v],
       send := s.send[c := s.send[c].(buffered := s.send[c].buffered - {p}, floor := s.send[c].floor[p := v])])
  }

  function SetPc(s: State, c: nat, pc: Pc): State
    requires Shape(s) && c < s.n
  {
    s.(send := s.send[c := s.send[c].(pc := pc)])
  }

  function DoSnapshot(s: State, c: nat): State
    requires Shape(s) && c < s.n
  {
    var targets := set d | 0 <= d < s.n && (s.send[c].mm, d) in s.mask;
    s.(send := s.send[c := s.send[c].(pc := Push, targets := targets, cursor := 0, used := 0, selfHit := false)])
  }

  function DoPushOne(s: State, c: nat): State
    requires Shape(s) && c < s.n && s.send[c].cursor < s.n
  {
    var x := s.send[c];
    var d := x.cursor;
    if d !in x.targets then s.(send := s.send[c := x.(cursor := d + 1)])
    else if d == c then s.(send := s.send[c := x.(cursor := d + 1, selfHit := true)])
    else
      var id := SlotId(c, x.used);
      s.(slots := s.slots[id := Slot(x.start, x.end, false, d)],
         queue := s.queue[d := [id] + s.queue[d]],
         send := s.send[c := x.(cursor := d + 1, used := x.used + 1)])
  }

  function DoSelfFlush(s: State, c: nat): State
    requires Shape(s) && c < s.n
  {
    var x := s.send[c];
    s.(tlb := if x.selfHit then s.tlb[c := AfterFlush(s.tlb[c], x.start, x.end)] else s.tlb,
       send := s.send[c := x.(pc := Wait, waited := 0)])
  }

  function DoWaitOne(s: State, c: nat): State
    requires Shape(s) && c < s.n
  {
    s.(send := s.send[c := s.send[c].(waited := s.send[c].waited + 1)])
  }

  // Receiver

  function DoDetach(s: State, c: nat): State
    requires Shape(s) && c < s.n
  {
    s.(queue := s.queue[c := []], recv := s.recv[c := RScan(Reversed(s.queue[c]))])
  }

  function DoDecide(s: State, c: nat): State
    requires Shape(s) && c < s.n && s.recv[c].RScan? && forall id | id in s.recv[c].list :: id in s.slots
  {
    var list := s.recv[c].list;
    if NeedFull(s.slots, list, 0)
    then s.(tlb := s.tlb[c := map[]], recv := s.recv[c := RAckAll(list)])
    else s.(recv := s.recv[c := RSlots(list)])
  }

  predicate HasFirst(s: State, c: nat)
    requires Shape(s) && c < s.n
  {
    !s.recv[c].RIdle? && s.recv[c].list != [] && s.recv[c].list[0] in s.slots
  }

  function DoAck(s: State, c: nat): State
    requires Shape(s) && c < s.n && HasFirst(s, c)
  {
    s.(slots := Acked(s, s.recv[c].list[0]), recv := s.recv[c := RAckAll(s.recv[c].list[1..])])
  }

  function DoStartSlot(s: State, c: nat): State
    requires Shape(s) && c < s.n && HasFirst(s, c)
  {
    s.(recv := s.recv[c := RInval(s.recv[c].list, s.slots[s.recv[c].list[0]].start / PAGE_SIZE)])
  }

  function DoInvlpg(s: State, c: nat): State
    requires Shape(s) && c < s.n && HasFirst(s, c) && s.recv[c].RInval?
  {
    var r := s.recv[c];
    if r.page * PAGE_SIZE < s.slots[r.list[0]].end
    then s.(tlb := s.tlb[c := s.tlb[c] - {r.page}], recv := s.recv[c := RInval(r.list, r.page + 1)])
    else s.(slots := Acked(s, r.list[0]), recv := s.recv[c := RSlots(r.list[1..])])
  }

  function DoEndDrain(s: State, c: nat): State
    requires Shape(s) && c < s.n
  {
    s.(recv := s.recv[c := RIdle])
  }

  // Context switch and hardware

  function DoClearBit(s: State, c: nat, next: nat): State
    requires Shape(s) && c < s.n
  {
    s.(mask := s.mask - {(s.cr3[c], c)}, sw := s.sw[c := Cleared(next)])
  }

  function DoSetBit(s: State, c: nat): State
    requires Shape(s) && c < s.n && s.sw[c].Cleared?
  {
    var next := s.sw[c].next;
    s.(mask := if next == KERNEL_MM then s.mask else s.mask + {(next, c)}, sw := s.sw[c := Marked(next)])
  }

  function DoLoadCr3(s: State, c: nat): State
    requires Shape(s) && c < s.n && s.sw[c].Marked?
  {
    s.(cr3 := s.cr3[c := s.sw[c].next], tlb := s.tlb[c := map[]], sw := s.sw[c := Running])
  }

  function DoWalk(s: State, c: nat, p: nat): State
    requires Shape(s) && c < s.n
  {
    var t: map<nat, nat> := s.tlb[c][p := Ver(s.pte, s.cr3[c], p)];
    s.(tlb := s.tlb[c := t])
  }

  function DoOtherStore(s: State, mm: nat, p: nat): State
  {
    s.(pte := s.pte[(mm, p) := Ver(s.pte, mm, p) + 1])
  }

  function Apply(s: State, a: Action): State
    requires Shape(s) && Enabled(s, a, false)
  {
    match a
    case Begin(c, mm, start, end) => DoBegin(s, c, mm, start, end)
    case Store(c, p) => DoStore(s, c, p)
    case Drain(c, p) => DoDrain(s, c, p)
    case Fence(c) => SetPc(s, c, Fenced)
    case Snapshot(c) => DoSnapshot(s, c)
    case PushOne(c) => DoPushOne(s, c)
    case PushDone(c) => SetPc(s, c, Self)
    case SelfFlush(c) => DoSelfFlush(s, c)
    case WaitOne(c) => DoWaitOne(s, c)
    case Return(c) => SetPc(s, c, Idle)
    case Detach(c) => DoDetach(s, c)
    case Decide(c) => DoDecide(s, c)
    case Ack(c) => DoAck(s, c)
    case StartSlot(c) => DoStartSlot(s, c)
    case Invlpg(c) => DoInvlpg(s, c)
    case EndDrain(c) => DoEndDrain(s, c)
    case ClearBit(c, next) => DoClearBit(s, c, next)
    case SetBit(c) => DoSetBit(s, c)
    case LoadCr3(c) => DoLoadCr3(s, c)
    case Walk(c, p) => DoWalk(s, c, p)
    case OtherStore(c, mm, p) => DoOtherStore(s, mm, p)
  }

  // ---------------------------------------------------------------- invariant

  function Chain(r: Recv): seq<SlotId>
  {
    if r.RIdle? then [] else r.list
  }

  /** The descriptors a CPU has been sent and has not acknowledged: on its queue, or in the
      list its handler is working through. */
  function InFlight(queue: seq<SlotId>, recv: Recv): seq<SlotId>
  {
    queue + Chain(recv)
  }

  predicate Active(pc: Pc)
  {
    pc == Push || pc == Self || pc == Wait
  }

  ghost predicate NoDuplicates<T>(q: seq<T>)
  {
    forall i, j :: 0 <= i < j < |q| ==> q[i] != q[j]
  }

  /** A descriptor in flight belongs to a sender that is still inside its shootdown. */
  ghost predicate FlightOk(slots: map<SlotId, Slot>, send: seq<Send>, c: nat, id: SlotId)
  {
    && id in slots && id.sender < |send|
    && var x := send[id.sender];
      && Active(x.pc) && id.idx < x.used
      && slots[id] == Slot(x.start, x.end, false, c)
  }

  ghost predicate FlightsOk(s: State)
    requires Shape(s)
  {
    forall c: nat | c < s.n ::
      && NoDuplicates(InFlight(s.queue[c], s.recv[c]))
      && (forall id | id in InFlight(s.queue[c], s.recv[c]) :: FlightOk(s.slots, s.send, c, id))
  }

  /** In the slot-by-slot branch no request is for a full flush. */
  ghost predicate RangesOk(s: State)
    requires Shape(s)
  {
    forall c: nat, id | c < s.n && (s.recv[c].RSlots? || s.recv[c].RInval?) && id in s.recv[c].list ::
      id in s.slots && !WantsFull(s.slots[id].start, s.slots[id].end)
  }

  ghost predicate SendOk(n: nat, pte: map<(nat, nat), nat>, slots: map<SlotId, Slot>, c: nat, x: Send)
  {
    && (x.pc != Idle ==> x.mm != KERNEL_MM)
    && (x.pc != Prep ==> x.buffered == {})
    && (forall p | p in x.floor :: x.floor[p] <= Ver(pte, x.mm, p))
    && (Active(x.pc) ==> x.used <= x.cursor <= n)
    && (x.pc == Self || x.pc == Wait ==> x.cursor == n)
    && (x.pc == Wait ==> x.waited <= x.used)
    && (x.pc == Wait ==> forall i: nat | i < x.waited :: SlotId(c, i) in slots && slots[SlotId(c, i)].done)
  }

  ghost predicate SendsOk(s: State)
    requires Shape(s)
  {
    forall c: nat | c < s.n :: SendOk(s.n, s.pte, s.slots, c, s.send[c])
  }

  /** Outside its own context switch a CPU is in the mask of the mm it has loaded. */
  ghost predicate MaskOk(s: State)
    requires Shape(s)
  {
    forall c: nat | c < s.n ::
      && (s.sw[c].Running? && s.cr3[c] != KERNEL_MM ==> (s.cr3[c], c) in s.mask)
      && (s.sw[c].Marked? && s.sw[c].next != KERNEL_MM ==> (s.sw[c].next, c) in s.mask)
  }

  /** A CPU with this CR3 and TLB holds a translation from before sender `x`'s store. */
  predicate Stale(cr3: nat, tlb: map<nat, nat>, x: Send, p: nat)
  {
    cr3 == x.mm && p in tlb && p in x.floor && tlb[p] < x.floor[p]
  }

  /** The receiver has not yet dropped page `p` for descriptor `id`. */
  predicate Unflushed(queue: seq<SlotId>, recv: Recv, id: SlotId, p: nat)
  {
    || id in queue
    || (recv.RScan? && id in recv.list)
    || (recv.RSlots? && id in recv.list)
    || (recv.RInval? && id in recv.list && (id == recv.list[0] ==> p >= recv.page))
  }

  /** CPU `c` will still be made to drop page `p` before sender `i` (in state `x`) returns. */
  ghost predicate Owes(x: Send, i: nat, c: nat, queue: seq<SlotId>, recv: Recv, p: nat)
  {
    || (x.pc == Push && c in x.targets && x.cursor <= c)
    || (c == i && x.selfHit && x.pc != Wait)
    || exists id :: id in InFlight(queue, recv) && id.sender == i && Unflushed(queue, recv, id, p)
  }

  ghost predicate Covered(s: State)
    requires Shape(s)
  {
    forall i: nat, c: nat, p: nat | i < s.n && c < s.n ::
      && Active(s.send[i].pc) && s.sw[c].Running?
      && Stale(s.cr3[c], s.tlb[c], s.send[i], p)
      && Covers(s.send[i].start, s.send[i].end, p)
      ==> Owes(s.send[i], i, c, s.queue[c], s.recv[c], p)
  }

  ghost predicate Inv(s: State)
  {
    Shape(s) && FlightsOk(s) && RangesOk(s) && SendsOk(s) && MaskOk(s) && Covered(s)
  }

  lemma InitInv(n: nat)
    requires n <= MAX_CPUS
    ensures Inv(Init(n))
  {
  }

  lemma {:induction false} ReversedMembers<T>(q: seq<T>)
    ensures |Reversed(q)| == |q|
    ensures forall x :: x in Reversed(q) <==> x in q
    ensures NoDuplicates(q) ==> NoDuplicates(Reversed(q))
  {
    if q != [] {
      var r := Reversed(q[1..]);
      ReversedMembers(q[1..]);
      assert forall x :: x in q <==> x == q[0] || x in q[1..];
      if NoDuplicates(q) {
        assert q[0] !in q[1..];
        assert NoDuplicates(r + [q[0]]);
      }
    }
  }

  lemma ListedIsInFlight(s: State)
    requires Shape(s)
    ensures forall c: nat, id :: c < s.n && id in Chain(s.recv[c]) ==> id in InFlight(s.queue[c], s.recv[c])
  {
  }

  /** The next slot of a sender's row is not in flight anywhere, so filling it is safe. */
  lemma NextSlotIsIdle(s: State, c: nat)
    requires Inv(s) && c < s.n
    ensures forall e: nat | e < s.n :: SlotId(c, s.send[c].used) !in InFlight(s.queue[e], s.recv[e])
  {
  }

  lemma PushFlights(s: State, a: Action)
    requires Inv(s) && a.PushOne? && Enabled(s, a, true)
    requires s.send[a.c].cursor in s.send[a.c].targets && s.send[a.c].cursor != a.c
    ensures FlightsOk(Apply(s, a)) && RangesOk(Apply(s, a))
  {
    var c, x, t := a.c, s.send[a.c], Apply(s, a);
    var d, id := x.cursor, SlotId(c, x.used);
    ListedIsInFlight(s);
    NextSlotIsIdle(s, c);
    assert InFlight(t.queue[d], t.recv[d]) == [id] + InFlight(s.queue[d], s.recv[d]);
    forall e: nat | e < s.n && e != d
      ensures InFlight(t.queue[e], t.recv[e]) == InFlight(s.queue[e], s.recv[e])
    {
    }
  }

  lemma PushCovered(s: State, a: Action)
    requires Inv(s) && a.PushOne? && Enabled(s, a, true)
    requires s.send[a.c].cursor in s.send[a.c].targets && s.send[a.c].cursor != a.c
    ensures Covered(Apply(s, a))
  {
    var c, x, t := a.c, s.send[a.c], Apply(s, a);
    var d, id := x.cursor, SlotId(c, x.used);
    assert InFlight(t.queue[d], t.recv[d]) == [id] + InFlight(s.queue[d], s.recv[d]);
    forall i: nat, p: nat | i < s.n && Owes(s.send[i], i, d, s.queue[d], s.recv[d], p)
      ensures Owes(t.send[i], i, d, t.queue[d], t.recv[d], p)
    {
      assert id in InFlight(t.queue[d], t.recv[d]) && Unflushed(t.queue[d], t.recv[d], id, p);
      if w :| w in InFlight(s.queue[d], s.recv[d]) && w.sender == i && Unflushed(s.queue[d], s.recv[d], w, p) {
        assert w in InFlight(t.queue[d], t.recv[d]) && Unflushed(t.queue[d], t.recv[d], w, p);
      }
    }
  }

  lemma PushSkip(s: State, a: Action)
    requires Inv(s) && a.PushOne? && Enabled(s, a, true)
    requires s.send[a.c].cursor !in s.send[a.c].targets || s.send[a.c].cursor == a.c
    ensures Inv(Apply(s, a))
  {
    PushSkipCovered(s, a);
  }

  lemma PushSkipCovered(s: State, a: Action)
    requires Shape(s) && Covered(s) && a.PushOne? && Enabled(s, a, true)
    requires s.send[a.c].cursor !in s.send[a.c].targets || s.send[a.c].cursor == a.c
    ensures Covered(Apply(s, a))
  {
    var t := Apply(s, a);
    forall i: nat, c: nat, p: nat | i < s.n && c < s.n && Owes(s.send[i], i, c, s.queue[c], s.recv[c], p)
      ensures Owes(t.send[i], i, c, t.queue[c], t.recv[c], p)
    {
    }
  }

  lemma StepPushOne(s: State, a: Action)
    requires Inv(s) && a.PushOne? && Enabled(s, a, true)
    ensures Inv(Apply(s, a))
  {
    if s.send[a.c].cursor in s.send[a.c].targets && s.send[a.c].cursor != a.c {
      PushFlights(s, a);
      PushCovered(s, a);
    } else {
      PushSkip(s, a);
    }
  }

  lemma DetachFlights(s: State, a: Action)
    requires Shape(s) && FlightsOk(s) && a.Detach? && Enabled(s, a, true)
    ensures FlightsOk(Apply(s, a))
  {
    var c, t := a.c, Apply(s, a);
    ReversedMembers(s.queue[c]);
    assert InFlight(s.queue[c], s.recv[c]) == s.queue[c];
    assert InFlight(t.queue[c], t.recv[c]) == Reversed(s.queue[c]);
    forall e: nat | e < s.n && e != c
      ensures InFlight(t.queue[e], t.recv[e]) == InFlight(s.queue[e], s.recv[e])
    {
    }
  }

  lemma DetachOwes(queue: seq<SlotId>, x: Send, i: nat, c: nat, p: nat)
    requires Owes(x, i, c, queue, RIdle, p)
    ensures Owes(x, i, c, [], RScan(Reversed(queue)), p)
  {
    if w :| w in InFlight(queue, RIdle) && w.sender == i && Unflushed(queue, RIdle, w, p) {
      ReversedMembers(queue);
      assert w in InFlight([], RScan(Reversed(queue))) && Unflushed([], RScan(Reversed(queue)), w, p);
    }
  }

  lemma StepDetach(s: State, a: Action)
    requires Inv(s) && a.Detach? && Enabled(s, a, true)
    ensures Inv(Apply(s, a))
  {
    var c, t := a.c, Apply(s, a);
    DetachFlights(s, a);
    forall i: nat, p: nat | i < s.n && Owes(s.send[i], i, c, s.queue[c], s.recv[c], p)
      ensures Owes(t.send[i], i, c, t.queue[c], t.recv[c], p)
    {
      DetachOwes(s.queue[c], s.send[i], i, c, p);
    }
  }

  /** The slot-by-slot branch is taken only when no listed request wants a full flush. */
  lemma {:induction false} NotFull(slots: map<SlotId, Slot>, list: seq<SlotId>, total: nat)
    requires forall id | id in list :: id in slots
    requires !NeedFull(slots, list, total)
    ensures forall id | id in list :: !WantsFull(slots[id].start, slots[id].end)
  {
    if list != [] {
      var x := slots[list[0]];
      NotFull(slots, list[1..], total + Span(x.start, x.end));
    }
  }

  lemma StepDecide(s: State, a: Action)
    requires Inv(s) && a.Decide? && Enabled(s, a, true)
    ensures Inv(Apply(s, a))
  {
    DecideRanges(s, a);
    DecideFlights(s, a);
    DecideCovered(s, a);
  }

  lemma DecideRanges(s: State, a: Action)
    requires Shape(s) && RangesOk(s) && a.Decide? && Enabled(s, a, true)
    ensures RangesOk(Apply(s, a))
  {
    var list := s.recv[a.c].list;
    if !NeedFull(s.slots, list, 0) {
      NotFull(s.slots, list, 0);
    }
  }

  lemma DecideFlights(s: State, a: Action)
    requires Shape(s) && FlightsOk(s) && a.Decide? && Enabled(s, a, true)
    ensures FlightsOk(Apply(s, a))
  {
    var t := Apply(s, a);
    assert forall c: nat | c < s.n :: InFlight(t.queue[c], t.recv[c]) == InFlight(s.queue[c], s.recv[c]);
  }

  lemma DecideCovered(s: State, a: Action)
    requires Shape(s) && Covered(s) && a.Decide? && Enabled(s, a, true)
    ensures Covered(Apply(s, a))
  {
  }

  lemma NoDuplicatesCut<T>(f: seq<T>, k: nat)
    requires NoDuplicates(f) && k < |f|
    ensures NoDuplicates(f[..k] + f[k + 1..]) && f[k] !in f[..k] + f[k + 1..]
    ensures forall x | x in f[..k] + f[k + 1..] :: x in f
  {
    var g := f[..k] + f[k + 1..];
    assert forall j :: 0 <= j < |g| ==> g[j] == (if j < k then f[j] else f[j + 1]);
  }

  /** Acknowledging the first listed descriptor takes it out of flight and leaves every other
      descriptor in flight, on this CPU and on others, as it was. */
  lemma AckFlights(s: State, c: nat, r: Recv)
    requires Inv(s) && c < s.n && Chain(s.recv[c]) != []
    requires Chain(r) == Chain(s.recv[c])[1..] && !r.RIdle?
    ensures var id := Chain(s.recv[c])[0];
            id in s.slots && FlightsOk(s.(slots := Acked(s, id), recv := s.recv[c := r]))
    ensures forall e: nat | e < s.n && e != c :: Chain(s.recv[c])[0] !in InFlight(s.queue[e], s.recv[e])
    ensures Chain(s.recv[c])[0] !in InFlight(s.queue[c], r)
  {
    var q := s.queue[c];
    var f, g, id := InFlight(q, s.recv[c]), InFlight(q, r), Chain(s.recv[c])[0];
    assert f[|q|] == id;
    assert g == f[..|q|] + f[|q| + 1..];
    NoDuplicatesCut(f, |q|);
    InFlightOnce(s, c, id);
    var t := s.(slots := Acked(s, id), recv := s.recv[c := r]);
    forall e: nat | e < s.n
      ensures NoDuplicates(InFlight(t.queue[e], t.recv[e]))
      ensures forall x | x in InFlight(t.queue[e], t.recv[e]) :: FlightOk(t.slots, t.send, e, x)
    {
      assert forall x | x in InFlight(t.queue[e], t.recv[e]) :: x != id && x in InFlight(s.queue[e], s.recv[e]);
    }
  }

  /** A descriptor in flight is in flight to one CPU only. */
  lemma InFlightOnce(s: State, c: nat, id: SlotId)
    requires Shape(s) && FlightsOk(s) && c < s.n && id in InFlight(s.queue[c], s.recv[c])
    ensures FlightOk(s.slots, s.send, c, id)
    ensures forall e: nat | e < s.n && e != c :: id !in InFlight(s.queue[e], s.recv[e])
  {
    assert FlightOk(s.slots, s.send, c, id);
    forall e: nat | e < s.n && e != c
      ensures id !in InFlight(s.queue[e], s.recv[e])
    {
      assert id in InFlight(s.queue[e], s.recv[e]) ==> FlightOk(s.slots, s.send, e, id);
    }
  }

  lemma StepAck(s: State, a: Action)
    requires Inv(s) && a.Ack? && Enabled(s, a, true)
    ensures Inv(Apply(s, a))
  {
    AckFlights(s, a.c, RAckAll(s.recv[a.c].list[1..]));
    ListedIsInFlight(s);
  }

  lemma InvlpgAckCovered(s: State, a: Action)
    requires Inv(s) && a.Invlpg? && Enabled(s, a, true)
    requires s.recv[a.c].page * PAGE_SIZE >= s.slots[s.recv[a.c].list[0]].end
    ensures Covered(Apply(s, a))
  {
    var c, r, t := a.c, s.recv[a.c], Apply(s, a);
    var id := r.list[0];
    ListedIsInFlight(s);
    assert FlightOk(s.slots, s.send, c, id);
    forall i: nat, p: nat | i < s.n && Owes(s.send[i], i, c, s.queue[c], r, p)
                          && Covers(s.send[i].start, s.send[i].end, p)
      ensures Owes(t.send[i], i, c, t.queue[c], t.recv[c], p)
    {
      if w :| w in InFlight(s.queue[c], r) && w.sender == i && Unflushed(s.queue[c], r, w, p) {
        AckFlights(s, c, RSlots(r.list[1..]));
        assert FlightOk(s.slots, s.send, c, w);
        assert w != id;
        assert w in s.queue[c] || w in r.list[1..];
        assert w in InFlight(t.queue[c], t.recv[c]) && Unflushed(t.queue[c], t.recv[c], w, p);
      }
    }
  }

  lemma StepInvlpg(s: State, a: Action)
    requires Inv(s) && a.Invlpg? && Enabled(s, a, true)
    ensures Inv(Apply(s, a))
  {
    if s.recv[a.c].page * PAGE_SIZE >= s.slots[s.recv[a.c].list[0]].end {
      InvlpgAcks(s, a);
    } else {
      InvlpgDrops(s, a);
    }
  }

  lemma InvlpgAcks(s: State, a: Action)
    requires Inv(s) && a.Invlpg? && Enabled(s, a, true)
    requires s.recv[a.c].page * PAGE_SIZE >= s.slots[s.recv[a.c].list[0]].end
    ensures Inv(Apply(s, a))
  {
    AckFlights(s, a.c, RSlots(s.recv[a.c].list[1..]));
    ListedIsInFlight(s);
    InvlpgAckCovered(s, a);
  }

  lemma InvlpgDrops(s: State, a: Action)
    requires Inv(s) && a.Invlpg? && Enabled(s, a, true)
    requires s.recv[a.c].page * PAGE_SIZE < s.slots[s.recv[a.c].list[0]].end
    ensures Inv(Apply(s, a))
  {
    InvlpgDropCovered(s, a);
  }

  lemma InvlpgDropCovered(s: State, a: Action)
    requires Shape(s) && Covered(s) && a.Invlpg? && Enabled(s, a, true)
    requires s.recv[a.c].page * PAGE_SIZE < s.slots[s.recv[a.c].list[0]].end
    ensures Covered(Apply(s, a))
  {
  }

  lemma StepBegin(s: State, a: Action)
    requires Inv(s) && a.Begin? && Enabled(s, a, true)
    ensures Inv(Apply(s, a))
  {
  }

  lemma StepStore(s: State, a: Action)
    requires Inv(s) && a.Store? && Enabled(s, a, true)
    ensures Inv(Apply(s, a))
  {
  }

  lemma StepDrain(s: State, a: Action)
    requires Inv(s) && a.Drain? && Enabled(s, a, true)
    ensures Inv(Apply(s, a))
  {
  }

  lemma StepFence(s: State, a: Action)
    requires Inv(s) && a.Fence? && Enabled(s, a, true)
    ensures Inv(Apply(s, a))
  {
  }

  lemma StepSnapshot(s: State, a: Action)
    requires Inv(s) && a.Snapshot? && Enabled(s, a, true)
    ensures Inv(Apply(s, a))
  {
  }

  lemma StepPushDone(s: State, a: Action)
    requires Inv(s) && a.PushDone? && Enabled(s, a, true)
    ensures Inv(Apply(s, a))
  {
  }

  lemma StepSelfFlush(s: State, a: Action)
    requires Inv(s) && a.SelfFlush? && Enabled(s, a, true)
    ensures Inv(Apply(s, a))
  {
    SelfFlushCovered(s, a);
  }

  lemma SelfFlushCovered(s: State, a: Action)
    requires Shape(s) && Covered(s) && a.SelfFlush? && Enabled(s, a, true)
    ensures Covered(Apply(s, a))
  {
  }

  lemma StepWaitOne(s: State, a: Action)
    requires Inv(s) && a.WaitOne? && Enabled(s, a, true)
    ensures Inv(Apply(s, a))
  {
  }

  lemma StepReturn(s: State, a: Action)
    requires Inv(s) && a.Return? && Enabled(s, a, true)
    ensures Inv(Apply(s, a))
  {
  }

  lemma StepStartSlot(s: State, a: Action)
    requires Inv(s) && a.StartSlot? && Enabled(s, a, true)
    ensures Inv(Apply(s, a))
  {
  }

  lemma StepEndDrain(s: State, a: Action)
    requires Inv(s) && a.EndDrain? && Enabled(s, a, true)
    ensures Inv(Apply(s, a))
  {
  }

  lemma StepClearBit(s: State, a: Action)
    requires Inv(s) && a.ClearBit? && Enabled(s, a, true)
    ensures Inv(Apply(s, a))
  {
  }

  lemma StepSetBit(s: State, a: Action)
    requires Inv(s) && a.SetBit? && Enabled(s, a, true)
    ensures Inv(Apply(s, a))
  {
  }

  lemma StepLoadCr3(s: State, a: Action)
    requires Inv(s) && a.LoadCr3? && Enabled(s, a, true)
    ensures Inv(Apply(s, a))
  {
  }

  lemma StepWalk(s: State, a: Action)
    requires Inv(s) && a.Walk? && Enabled(s, a, true)
    ensures Inv(Apply(s, a))
  {
  }

  lemma StepOtherStore(s: State, a: Action)
    requires Inv(s) && a.OtherStore? && Enabled(s, a, true)
    ensures Inv(Apply(s, a))
  {
  }

  lemma StepKeepsInv(s: State, a: Action)
    requires Inv(s) && Enabled(s, a, true)
    ensures Inv(Apply(s, a))
  {
    match a
    case Begin(_, _, _, _) => StepBegin(s, a);
    case Store(_, _) => StepStore(s, a);
    case Drain(_, _) => StepDrain(s, a);
    case Fence(_) => StepFence(s, a);
    case Snapshot(_) => StepSnapshot(s, a);
    case PushOne(_) => StepPushOne(s, a);
    case PushDone(_) => StepPushDone(s, a);
    case SelfFlush(_) => StepSelfFlush(s, a);
    case WaitOne(_) => StepWaitOne(s, a);
    case Return(_) => StepReturn(s, a);
    case Detach(_) => StepDetach(s, a);
    case Decide(_) => StepDecide(s, a);
    case Ack(_) => StepAck(s, a);
    case StartSlot(_) => StepStartSlot(s, a);
    case Invlpg(_) => StepInvlpg(s, a);
    case EndDrain(_) => StepEndDrain(s, a);
    case ClearBit(_, _) => StepClearBit(s, a);
    case SetBit(_) => StepSetBit(s, a);
    case LoadCr3(_) => StepLoadCr3(s, a);
    case Walk(_, _) => StepWalk(s, a);
    case OtherStore(_, _, _) => StepOtherStore(s, a);
  }

  // ---------------------------------------------------------------- reachable states

  predicate Next(r: State, a: Action, s: State, fenced: bool)
  {
    Shape(r) && Enabled(r, a, fenced) && s == Apply(r, a)
  }

  /** Some run of `n` CPUs reaches `s` in `k` steps. */
  ghost predicate Reachable(n: nat, s: State, k: nat, fenced: bool)
    decreases k
  {
    if k == 0 then n <= MAX_CPUS && s == Init(n)
    else exists r, a :: Reachable(n, r, k - 1, fenced) && Next(r, a, s, fenced)
  }

  lemma NextKeepsInv(r: State, a: Action, s: State)
    requires Inv(r) && Next(r, a, s, true)
    ensures Inv(s) && s.n == r.n
  {
    StepKeepsInv(r, a);
  }

  lemma {:induction false} ReachableInv(n: nat, s: State, k: nat)
    requires Reachable(n, s, k, true)
    ensures Inv(s) && s.n == n
    decreases k
  {
    if k == 0 {
      InitInv(n);
    } else {
      var r, a :| Reachable(n, r, k - 1, true) && Next(r, a, s, true);
      ReachableInv(n, r, k - 1);
      NextKeepsInv(r, a, s);
    }
  }

  lemma CleanAtReturn(s: State, i: nat, c: nat, p: nat)
    requires Inv(s) && Enabled(s, Return(i), true) && c < s.n && s.sw[c].Running?
    requires Covers(s.send[i].start, s.send[i].end, p)
    ensures !Stale(s.cr3[c], s.tlb[c], s.send[i], p)
  {
    assert SendOk(s.n, s.pte, s.slots, i, s.send[i]);
    assert !Owes(s.send[i], i, c, s.queue[c], s.recv[c], p);
  }

  /** When a shootdown returns, a CPU that holds a translation from before the sender's
      stores, for any page the request covers, is inside its own context switch: it has
      cleared its mask bit and not yet written CR3.  Every other CPU is clean. */
  lemma ShootdownIsComplete(n: nat, s: State, k: nat, i: nat, c: nat, p: nat)
    requires Reachable(n, s, k, true) && Shape(s) && Enabled(s, Return(i), true) && c < n
    ensures s.n == n
    ensures Stale(s.cr3[c], s.tlb[c], s.send[i], p) && Covers(s.send[i].start, s.send[i].end, p)
            ==> !s.sw[c].Running?
  {
    ReachableInv(n, s, k);
    if Covers(s.send[i].start, s.send[i].end, p) && s.sw[c].Running? { CleanAtReturn(s, i, c, p); }
  }

  /** A run leads from `s` to `t` in `j` steps. */
  ghost predicate Later(s: State, t: State, j: nat)
    decreases j
  {
    if j == 0 then t == s else exists r, a :: Later(s, r, j - 1) && Next(r, a, t, true)
  }

  /** Page `p` of `mm` is at version `v` or later, in the table and in every CPU that runs with it. */
  ghost predicate UpToDate(s: State, mm: nat, p: nat, v: nat)
    requires Shape(s)
  {
    && v <= Ver(s.pte, mm, p)
    && forall c: nat | c < s.n && s.sw[c].Running? && s.cr3[c] == mm && p in s.tlb[c] :: v <= s.tlb[c][p]
  }

  predicate TouchesTlb(a: Action)
  {
    a.SelfFlush? || a.Decide? || a.Invlpg? || a.ClearBit? || a.SetBit? || a.LoadCr3? || a.Walk?
  }

  lemma OthersKeepTlb(s: State, a: Action)
    requires Shape(s) && Enabled(s, a, true) && !TouchesTlb(a)
    ensures var t := Apply(s, a); Shape(t) && t.n == s.n && t.tlb == s.tlb && t.sw == s.sw && t.cr3 == s.cr3
  {
  }

  /** An entry of a CPU that runs is an old one of a CPU that ran, or one just walked in: a CPU
      leaves its switch with an empty TLB. */
  lemma WhereEntriesComeFrom(s: State, a: Action, c: nat, p: nat)
    requires Shape(s) && Enabled(s, a, true) && c < s.n
    ensures var t := Apply(s, a);
            && Shape(t) && t.n == s.n
            && (t.sw[c].Running? && p in t.tlb[c] ==>
                  && t.cr3[c] == s.cr3[c]
                  && ((s.sw[c].Running? && p in s.tlb[c] && t.tlb[c][p] == s.tlb[c][p]) || t.tlb[c][p] == Ver(s.pte, s.cr3[c], p)))
  {
    if !TouchesTlb(a) {
      OthersKeepTlb(s, a);
    } else if a.SelfFlush? || a.Decide? || a.Invlpg? {
      FlushesOnlyDrop(s, a, c, p);
    }
  }

  lemma FlushesOnlyDrop(s: State, a: Action, c: nat, p: nat)
    requires Shape(s) && Enabled(s, a, true) && c < s.n && (a.SelfFlush? || a.Decide? || a.Invlpg?)
    ensures var t := Apply(s, a);
            && Shape(t) && t.n == s.n && t.sw == s.sw && t.cr3 == s.cr3
            && (p in t.tlb[c] ==> p in s.tlb[c] && t.tlb[c][p] == s.tlb[c][p])
  {
  }

  lemma VersionsGrow(s: State, a: Action, mm: nat, p: nat)
    requires Shape(s) && Enabled(s, a, true)
    ensures Ver(s.pte, mm, p) <= Ver(Apply(s, a).pte, mm, p)
  {
  }

  lemma StaysUpToDate(s: State, a: Action, mm: nat, p: nat, v: nat)
    requires Shape(s) && Enabled(s, a, true) && UpToDate(s, mm, p, v)
    ensures Shape(Apply(s, a)) && UpToDate(Apply(s, a), mm, p, v)
  {
    VersionsGrow(s, a, mm, p);
    forall c: nat | c < s.n
      ensures var t := Apply(s, a);
              Shape(t) && t.n == s.n && (t.sw[c].Running? && t.cr3[c] == mm && p in t.tlb[c] ==> v <= t.tlb[c][p])
    {
      WhereEntriesComeFrom(s, a, c, p);
    }
    ShapeKept(s, a);
  }

  lemma ShapeKept(s: State, a: Action)
    requires Shape(s) && Enabled(s, a, true)
    ensures Shape(Apply(s, a)) && Apply(s, a).n == s.n
  {
  }

  lemma {:induction false} UpToDateLater(s: State, t: State, j: nat, mm: nat, p: nat, v: nat)
    requires Shape(s) && UpToDate(s, mm, p, v) && Later(s, t, j)
    ensures Shape(t) && UpToDate(t, mm, p, v)
    decreases j
  {
    if j > 0 {
      var r, a :| Later(s, r, j - 1) && Next(r, a, t, true);
      UpToDateLater(s, r, j - 1, mm, p, v);
      StaysUpToDate(r, a, mm, p, v);
    }
  }

  lemma UpToDateAtReturn(s: State, i: nat, p: nat)
    requires Inv(s) && Enabled(s, Return(i), true) && Covers(s.send[i].start, s.send[i].end, p) && p in s.send[i].floor
    ensures UpToDate(s, s.send[i].mm, p, s.send[i].floor[p])
  {
    assert SendOk(s.n, s.pte, s.slots, i, s.send[i]);
    forall c: nat | c < s.n && s.sw[c].Running? && s.cr3[c] == s.send[i].mm && p in s.tlb[c]
      ensures s.send[i].floor[p] <= s.tlb[c][p]
    {
      CleanAtReturn(s, i, c, p);
    }
  }

  /** For ever after a shootdown has returned, no CPU that runs (that is not inside a context
      switch) has a translation from before the sender's stores, for any page the request covers. */
  lemma NeverStaleAgain(n: nat, s: State, k: nat, i: nat, p: nat, t: State, j: nat)
    requires Reachable(n, s, k, true) && Shape(s) && Enabled(s, Return(i), true)
    requires Covers(s.send[i].start, s.send[i].end, p) && p in s.send[i].floor && Later(s, t, j)
    ensures Shape(t) && UpToDate(t, s.send[i].mm, p, s.send[i].floor[p])
  {
    ReachableInv(n, s, k);
    UpToDateAtReturn(s, i, p);
    UpToDateLater(s, t, j, s.send[i].mm, p, s.send[i].floor[p]);
  }

  /** Descriptors a receiver step may read or write. */
  function Touched(s: State, a: Action): seq<SlotId>
    requires Shape(s) && a.c < s.n
  {
    if (a.Decide? || a.Ack? || a.StartSlot? || a.Invlpg?) && !s.recv[a.c].RIdle? then s.recv[a.c].list else []
  }

  /** A receiver never touches a descriptor it has acknowledged: whatever it touches is
      unacknowledged and its sender is still waiting for it.  So when the sender returns and
      later reuses its row, nobody else looks at the old contents. */
  lemma ReceiverTouchesLiveSlots(n: nat, s: State, k: nat, a: Action, id: SlotId)
    requires Reachable(n, s, k, true) && Shape(s) && Enabled(s, a, true) && id in Touched(s, a)
    ensures id in s.slots && !s.slots[id].done && s.slots[id].target == a.c
    ensures id.sender < s.n && Active(s.send[id.sender].pc) && id.idx < s.send[id.sender].used
  {
    ReachableInv(n, s, k);
    ListedIsInFlight(s);
    assert id in InFlight(s.queue[a.c], s.recv[a.c]);
  }

  /** The slot a sender is about to fill lies inside its row and is in nobody's list. */
  lemma FilledSlotIsFree(n: nat, s: State, k: nat, c: nat, e: nat)
    requires Reachable(n, s, k, true) && Shape(s) && Enabled(s, PushOne(c), true) && e < s.n
    ensures s.send[c].used < MAX_CPUS
    ensures SlotId(c, s.send[c].used) !in InFlight(s.queue[e], s.recv[e])
  {
    ReachableInv(n, s, k);
    NextSlotIsIdle(s, c);
    assert SendOk(s.n, s.pte, s.slots, c, s.send[c]);
  }

  // ---------------------------------------------------------------- what cannot be claimed

  /** `P` holds wherever a run that starts inside `P` can go. */
  ghost predicate Closed(P: State -> bool, fenced: bool)
  {
    forall r, a, s :: P(r) && Next(r, a, s, fenced) ==> P(s)
  }

  lemma Go(P: State -> bool, fenced: bool, r: State, a: Action) returns (s: State)
    requires Closed(P, fenced) && P(r) && Shape(r) && Enabled(r, a, fenced)
    ensures P(s) && s == Apply(r, a) && Shape(s) && s.n == r.n
  {
    s := Apply(r, a);
    assert Next(r, a, s, fenced);
  }

  /** CPU 1 of two runs mm 1 and has page 0 cached at version 0; page 0 is unchanged so far. */
  predicate Cached(s: State)
  {
    && Shape(s) && s.n == 2 && s.cr3[1] == 1 && s.sw[1].Running?
    && 0 in s.tlb[1] && s.tlb[1][0] == 0 && Ver(s.pte, 1, 0) == 0
  }

  lemma LoadAndWalk(P: State -> bool, fenced: bool, r: State) returns (s: State)
    requires Closed(P, fenced) && P(r) && Shape(r) && r.n == 2 && r.sw[1].Running? && Ver(r.pte, 1, 0) == 0
    ensures P(s) && Cached(s) && s.send == r.send
    ensures (1, 0) in s.mask ==> (1, 0) in r.mask
  {
    s := Go(P, fenced, r, ClearBit(1, 1));
    s := Go(P, fenced, s, SetBit(1));
    s := Go(P, fenced, s, LoadCr3(1));
    s := Go(P, fenced, s, Walk(1, 0));
  }

  /** CPU 0's shootdown of page 0 of mm 1, with its store drained and no target found. */
  function Unnoticed(pc: Pc, cursor: nat): Send
  {
    Send(pc, 1, 0, 4096, {}, map[0 := 1], {}, cursor, 0, false, 0)
  }

  /** The old translation is still in CPU 1's TLB. */
  predicate Missed(s: State, sw: Switch)
  {
    Shape(s) && s.n == 2 && s.cr3[1] == 1 && 0 in s.tlb[1] && s.tlb[1][0] == 0 && s.sw[1] == sw
  }

  lemma FinishUnnoticed(P: State -> bool, fenced: bool, r: State, sw: Switch) returns (s: State)
    requires Closed(P, fenced) && P(r) && Missed(r, sw) && r.send[0] == Unnoticed(Push, 0)
    ensures P(s) && Missed(s, sw) && s.send[0] == Unnoticed(Wait, 2)
  {
    s := Go(P, fenced, r, PushOne(0));
    s := Go(P, fenced, s, PushOne(0));
    s := Go(P, fenced, s, PushDone(0));
    s := Go(P, fenced, s, SelfFlush(0));
  }

  lemma StoreThenSwitchAway(P: State -> bool, r: State) returns (s: State)
    requires Closed(P, true) && P(r) && Cached(r) && r.send[0] == NoSend && (1, 0) !in r.mask
    ensures P(s) && Missed(s, Cleared(KERNEL_MM)) && s.send[0] == Unnoticed(Prep, 0)
    ensures (1, 0) !in s.mask && (1, 1) !in s.mask
  {
    s := Go(P, true, r, Begin(0, 1, 0, 4096));
    s := Go(P, true, s, Store(0, 0));
    s := Go(P, true, s, Drain(0, 0));
    s := Go(P, true, s, ClearBit(1, KERNEL_MM));
  }

  lemma FenceAndRead(P: State -> bool, r: State) returns (s: State)
    requires Closed(P, true) && P(r) && Missed(r, Cleared(KERNEL_MM)) && r.send[0] == Unnoticed(Prep, 0)
    requires (1, 0) !in r.mask && (1, 1) !in r.mask
    ensures P(s) && Missed(s, Cleared(KERNEL_MM)) && s.send[0] == Unnoticed(Push, 0)
  {
    s := Go(P, true, r, Fence(0));
    s := Go(P, true, s, Snapshot(0));
  }

  lemma StoreAndReadUnfenced(P: State -> bool, r: State) returns (s: State)
    requires Closed(P, false) && P(r) && r == Init(2)
    ensures P(s) && Shape(s) && s.n == 2 && s.sw[1].Running? && Ver(s.pte, 1, 0) == 0
    ensures s.send[0] == Unnoticed(Push, 0).(buffered := {0}, floor := map[])
  {
    s := Go(P, false, r, Begin(0, 1, 0, 4096));
    s := Go(P, false, s, Store(0, 0));
    s := Go(P, false, s, Fence(0));
    s := Go(P, false, s, Snapshot(0));
  }

  ghost function Reaches(fenced: bool): State -> bool
  {
    s => exists k: nat :: Reachable(2, s, k, fenced)
  }

  lemma ReachesIsClosed(fenced: bool)
    ensures Closed(Reaches(fenced), fenced) && Reaches(fenced)(Init(2))
  {
    assert Reachable(2, Init(2), 0, fenced);
    forall r, a, s | Reaches(fenced)(r) && Next(r, a, s, fenced)
      ensures Reaches(fenced)(s)
    {
      var k: nat :| Reachable(2, r, k, fenced);
      assert Reachable(2, s, k + 1, fenced);
    }
  }

  /** The exception in `ShootdownIsComplete` happens: CPU 1 clears its bit while it still holds
      the translation, and the shootdown returns before CPU 1 writes CR3. */
  lemma SwitchWindowIsReal() returns (s: State, k: nat)
    ensures Reachable(2, s, k, true) && Shape(s) && s.n == 2 && Enabled(s, Return(0), true)
    ensures Stale(s.cr3[1], s.tlb[1], s.send[0], 0) && Covers(s.send[0].start, s.send[0].end, 0)
    ensures !s.sw[1].Running?
  {
    var P := Reaches(true);
    ReachesIsClosed(true);
    s := LoadAndWalk(P, true, Init(2));
    s := StoreThenSwitchAway(P, s);
    s := FenceAndRead(P, s);
    s := FinishUnnoticed(P, true, s, Cleared(KERNEL_MM));
    k :| Reachable(2, s, k, true);
  }

  /** Without the fence the protocol is broken: CPU 1 loads the mm after the mask was read and
      walks before the sender's store drains, and ends up running with the old translation. */
  lemma FenceIsNeeded() returns (s: State, k: nat)
    ensures Reachable(2, s, k, false) && Shape(s) && s.n == 2 && Enabled(s, Return(0), false)
    ensures Stale(s.cr3[1], s.tlb[1], s.send[0], 0) && Covers(s.send[0].start, s.send[0].end, 0)
    ensures s.sw[1].Running?
  {
    var P := Reaches(false);
    ReachesIsClosed(false);
    s := UnfencedRun(P);
    k :| Reachable(2, s, k, false);
  }

  lemma UnfencedRun(P: State -> bool) returns (s: State)
    requires Closed(P, false) && P(Init(2))
    ensures P(s) && Missed(s, Running) && s.send[0] == Unnoticed(Wait, 2)
  {
    s := StoreAndReadUnfenced(P, Init(2));
    s := LoadAndWalk(P, false, s);
    s := DrainLate(P, s);
    s := FinishUnnoticed(P, false, s, Running);
  }

  lemma DrainLate(P: State -> bool, r: State) returns (s: State)
    requires Closed(P, false) && P(r) && Cached(r)
    requires r.send[0] == Unnoticed(Push, 0).(buffered := {0}, floor := map[])
    ensures P(s) && Missed(s, Running) && s.send[0] == Unnoticed(Push, 0)
  {
    s := Go(P, false, r, Drain(0, 0));
  }
}
