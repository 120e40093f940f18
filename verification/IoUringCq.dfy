/** The completion ring of io_uring (kernel/io/io_uring.c, io_uring_post_cqe): one poster at a
    time under the ring's lock, a user that advances the head at any moment, an overflow list for
    entries that do not fit, and 32-bit indices that wrap. */
module IoUringCq {
  import opened Arithmetic

  const U32: nat := 0x1_0000_0000

  /** A completion; `serial` numbers the posts, so no two completions are equal. */
  datatype Cqe = Cqe(userData: nat, res: int, serial: nat)

  /** Where the poster is: outside, draining the overflow list, or about to reload the head.
      `moved` records whether the user advanced the head after the drain loop ended. */
  datatype Pc = Idle | Draining(cqe: Cqe) | Reload(cqe: Cqe, moved: bool)

  /** `slots`, `head`, `tail` and `overflow` are the ring; the rest is history: all entries ever
      published in the ring, how many the user has taken, all posts that were not dropped, and
      the number of posts. */
  datatype State = State(slots: seq<Cqe>, head: nat, tail: nat, overflow: seq<Cqe>, pc: Pc,
                         published: seq<Cqe>, taken: nat, accepted: seq<Cqe>, posts: nat)

  datatype Action = Start(userData: nat, res: int) | Drain | Stop | Finish(memory: bool) | Take

  /** The ring has no room, as the 32-bit difference says. */
  predicate Full(s: State)
  {
    (s.tail + U32 - s.head) % U32 >= |s.slots|
  }

  predicate Enabled(s: State, a: Action)
  {
    match a
    case Start(_, _) => s.pc.Idle?
    case Drain => s.pc.Draining? && s.overflow != [] && !Full(s)
    case Stop => s.pc.Draining? && (s.overflow == [] || Full(s))
    case Finish(_) => s.pc.Reload?
    case Take => s.head != s.tail
  }

  /** The slot store and the tail store of one publication. */
  function Publish(s: State, c: Cqe): State
    requires |s.slots| > 0
  {
    s.(slots := s.slots[s.tail % |s.slots| := c], tail := (s.tail + 1) % U32, published := s.published + [c])
  }

  function Apply(s: State, a: Action): State
    requires Enabled(s, a) && |s.slots| > 0
  {
    match a
    case Start(u, r) => s.(pc := Draining(Cqe(u, r, s.posts)), posts := s.posts + 1)
    case Drain => Publish(s, s.overflow[0]).(overflow := s.overflow[1..])
    case Stop => s.(pc := Reload(s.pc.cqe, false))
    case Finish(memory) =>
      var c := s.pc.cqe;
      if !Full(s) then Publish(s, c).(pc := Idle, accepted := s.accepted + [c])
      else if memory then s.(pc := Idle, overflow := s.overflow + [c], accepted := s.accepted + [c])
      else s.(pc := Idle)
    case Take =>
      s.(head := (s.head + 1) % U32, taken := s.taken + 1,
         pc := if s.pc.Reload? then s.pc.(moved := true) else s.pc)
  }

  // ---------------------------------------------------------------- nothing lost or overwritten

  /** The ring size is a power of two, which is what masking the index relies on. */
  ghost predicate SizeOk(n: nat)
  {
    IsPow2(n) && n < U32
  }

  function SlotOf(slots: seq<Cqe>, i: nat): Cqe
    requires |slots| > 0
  {
    slots[i % |slots|]
  }

  /** Every published entry the user has not taken is still in its slot. */
  ghost predicate RingOk(slots: seq<Cqe>, head: nat, tail: nat, published: seq<Cqe>, taken: nat)
  {
    && SizeOk(|slots|) && head == taken % U32 && tail == |published| % U32
    && taken <= |published| <= taken + |slots|
    && forall i: nat | taken <= i < |published| :: SlotOf(slots, i) == published[i]
  }

  ghost predicate Serials(cs: seq<Cqe>, posts: nat)
  {
    && (forall i: nat | i < |cs| :: cs[i].serial < posts)
    && (forall i: nat, j: nat | i < j < |cs| :: cs[i].serial < cs[j].serial)
  }

  ghost predicate Inv(s: State)
  {
    && RingOk(s.slots, s.head, s.tail, s.published, s.taken)
    && multiset(s.accepted) == multiset(s.published) + multiset(s.overflow)
    && Serials(s.accepted, if s.pc.Idle? then s.posts else s.pc.cqe.serial)
    && (!s.pc.Idle? ==> s.pc.cqe.serial + 1 == s.posts)
    && (s.pc.Reload? && !s.pc.moved ==> s.overflow == [] || Full(s))
  }

  lemma DiffIs(taken: nat, count: nat, n: nat)
    requires taken <= count <= taken + n && n < U32
    ensures (count % U32 + U32 - taken % U32) % U32 == count - taken
  {
  }

  /** The 32-bit test for room is exact. */
  lemma FullIff(s: State)
    requires RingOk(s.slots, s.head, s.tail, s.published, s.taken)
    ensures Full(s) <==> |s.published| == s.taken + |s.slots|
  {
    DiffIs(s.taken, |s.published|, |s.slots|);
  }

  lemma PublishKeepsRing(s: State, c: Cqe)
    requires RingOk(s.slots, s.head, s.tail, s.published, s.taken) && !Full(s)
    ensures var s' := Publish(s, c); RingOk(s'.slots, s'.head, s'.tail, s'.published, s'.taken)
  {
    var t, s' := |s.published|, Publish(s, c);
    FullIff(s);
    Wraps(t);
    forall i: nat | s.taken <= i <= t
      ensures SlotOf(s'.slots, i) == if i == t then c else SlotOf(s.slots, i)
    {
      SlotAfter(s.slots, t, c, i);
    }
  }

  /** Writing the slot of index `t` leaves the slots of the previous indices alone. */
  lemma SlotAfter(slots: seq<Cqe>, t: nat, c: Cqe, i: nat)
    requires SizeOk(|slots|) && i <= t < i + |slots|
    ensures SlotOf(slots[(t % U32) % |slots| := c], i) == if i == t then c else SlotOf(slots, i)
  {
    WordIsPow2();
    Pow2Divides(|slots|, U32);
    ModMod(t, U32, |slots|);
    if i < t { ModDiffers(i, t, |slots|); }
  }

  lemma TakeKeepsRing(s: State)
    requires RingOk(s.slots, s.head, s.tail, s.published, s.taken) && s.head != s.tail
    ensures var s' := Apply(s, Take); RingOk(s'.slots, s'.head, s'.tail, s'.published, s'.taken)
  {
    Wraps(s.taken);
  }

  lemma Wraps(x: nat)
    ensures (x % U32 + 1) % U32 == (x + 1) % U32
  {
  }

  lemma StepKeepsInv(s: State, a: Action)
    requires Inv(s) && Enabled(s, a)
    ensures Inv(Apply(s, a))
  {
    match a
    case Start(_, _) =>
    case Drain => DrainKeepsInv(s);
    case Stop =>
    case Finish(memory) => FinishKeepsInv(s, memory);
    case Take => TakeKeepsRing(s);
  }

  lemma DrainKeepsInv(s: State)
    requires Inv(s) && Enabled(s, Drain)
    ensures Inv(Apply(s, Drain))
  {
    PublishKeepsRing(s, s.overflow[0]);
    assert s.overflow == [s.overflow[0]] + s.overflow[1..];
  }

  lemma FinishKeepsInv(s: State, memory: bool)
    requires Inv(s) && s.pc.Reload?
    ensures Inv(Apply(s, Finish(memory)))
  {
    if !Full(s) { PublishKeepsRing(s, s.pc.cqe); }
  }

  // ---------------------------------------------------------------- runs

  ghost predicate Init(s: State)
  {
    && SizeOk(|s.slots|) && s.head == 0 && s.tail == 0 && s.overflow == [] && s.pc.Idle?
    && s.published == [] && s.taken == 0 && s.accepted == [] && s.posts == 0
  }

  lemma InitInv(s: State)
    requires Init(s)
    ensures Inv(s) && Fifo(s)
  {
  }

  /** A run: the states it goes through and the action taken in each. */
  datatype Run = Run(states: seq<State>, actions: seq<Action>)

  ghost predicate StepAt(r: Run, i: nat)
    requires |r.states| == |r.actions| + 1 && i < |r.actions|
  {
    && |r.states[i].slots| > 0 && Enabled(r.states[i], r.actions[i])
    && r.states[i + 1] == Apply(r.states[i], r.actions[i])
  }

  ghost predicate IsRun(r: Run)
  {
    && |r.states| == |r.actions| + 1 && Init(r.states[0])
    && forall i: nat | i < |r.actions| :: StepAt(r, i)
  }

  /** No take happens between the end of a drain loop and the reload of the head. */
  ghost predicate Quiet(r: Run)
    requires IsRun(r)
  {
    forall i: nat | i < |r.actions| :: r.actions[i].Take? ==> !r.states[i].pc.Reload?
  }

  lemma {:induction false} RunInv(r: Run, i: nat)
    requires IsRun(r) && i < |r.states|
    ensures Inv(r.states[i])
  {
    if i == 0 {
      InitInv(r.states[0]);
    } else {
      RunInv(r, i - 1);
      assert StepAt(r, i - 1);
      StepKeepsInv(r.states[i - 1], r.actions[i - 1]);
    }
  }

  /** In every run each completion that was not dropped is in exactly one of two places, the
      published entries or the overflow list, once; and the user takes the published entries one
      by one, each from a slot that still holds it. */
  lemma NothingLost(r: Run, i: nat)
    requires IsRun(r) && i < |r.states|
    ensures var s := r.states[i];
            && multiset(s.accepted) == multiset(s.published) + multiset(s.overflow)
            && (forall c :: multiset(s.accepted)[c] <= 1)
            && s.taken <= |s.published|
            && (s.head != s.tail <==> s.taken < |s.published|)
            && (s.head != s.tail ==> |s.slots| > 0 && s.slots[s.head % |s.slots|] == s.published[s.taken])
  {
    var s := r.states[i];
    RunInv(r, i);
    HeadIsNext(s);
    forall c
      ensures multiset(s.accepted)[c] <= 1
    {
      OnceEach(s.accepted, c);
    }
  }

  /** The completions that the first `i` actions posted. */
  ghost function Posted(actions: seq<Action>, i: nat): seq<Cqe>
    requires i <= |actions|
  {
    if i == 0 then []
    else
      var before := Posted(actions, i - 1);
      match actions[i - 1]
      case Start(u, res) => before + [Cqe(u, res, |before|)]
      case _ => before
  }

  /** While memory can be had, every post is accepted: whatever was posted, in that order, except
      for the one that is still under way. */
  lemma {:induction false} EveryPostAccepted(r: Run, i: nat)
    requires IsRun(r) && i < |r.states| && forall k: nat | k < |r.actions| && r.actions[k].Finish? :: r.actions[k].memory
    ensures var s := r.states[i];
            |Posted(r.actions, i)| == s.posts
            && Posted(r.actions, i) == if s.pc.Idle? then s.accepted else s.accepted + [s.pc.cqe]
  {
    if i > 0 {
      EveryPostAccepted(r, i - 1);
      assert StepAt(r, i - 1);
    }
  }

  lemma HeadIsNext(s: State)
    requires RingOk(s.slots, s.head, s.tail, s.published, s.taken)
    ensures s.head != s.tail <==> s.taken < |s.published|
    ensures s.head != s.tail ==> s.slots[s.head % |s.slots|] == s.published[s.taken]
  {
    DiffIs(s.taken, |s.published|, |s.slots|);
    if s.taken < |s.published| {
      WordIsPow2();
      Pow2Divides(|s.slots|, U32);
      ModMod(s.taken, U32, |s.slots|);
      assert SlotOf(s.slots, s.taken) == s.published[s.taken];
    }
  }

  lemma {:induction false} OnceEach(cs: seq<Cqe>, c: Cqe)
    requires forall i: nat, j: nat | i < j < |cs| :: cs[i].serial < cs[j].serial
    ensures multiset(cs)[c] <= 1
  {
    if cs != [] {
      var n := |cs| - 1;
      assert cs == cs[..n] + [cs[n]];
      OnceEach(cs[..n], c);
      if c == cs[n] { assert c !in cs[..n]; }
    }
  }

  // ---------------------------------------------------------------- order

  /** Completions are published in the order they were posted. */
  ghost predicate Fifo(s: State)
  {
    s.accepted == s.published + s.overflow
  }

  /** The last step of a post keeps the order if and only if it does not overtake the overflow
      list, and it can overtake it only when the user advanced the head after the drain loop. */
  lemma FinishKeepsOrderIff(s: State, memory: bool)
    requires Inv(s) && Fifo(s) && s.pc.Reload?
    ensures Fifo(Apply(s, Finish(memory))) <==> s.overflow == [] || Full(s)
    ensures !s.pc.moved ==> s.overflow == [] || Full(s)
  {
    var c, s' := s.pc.cqe, Apply(s, Finish(memory));
    if s.overflow != [] && !Full(s) {
      assert s'.accepted[|s.published|] == s.accepted[|s.published|] == s.overflow[0];
      assert (s'.published + s'.overflow)[|s.published|] == c;
    }
  }

  lemma StepKeepsOrder(s: State, a: Action)
    requires Inv(s) && Fifo(s) && Enabled(s, a) && (a.Take? ==> !s.pc.Reload?) && (s.pc.Reload? ==> !s.pc.moved)
    ensures Fifo(Apply(s, a)) && (Apply(s, a).pc.Reload? ==> !Apply(s, a).pc.moved)
  {
    if a.Finish? { FinishKeepsOrderIff(s, a.memory); }
    if a.Drain? { assert s.published + s.overflow == s.published + [s.overflow[0]] + s.overflow[1..]; }
  }

  /** Strict order in every run whose posts see a head that stands still after the drain loop. */
  lemma {:induction false} QuietRunsAreFifo(r: Run, i: nat)
    requires IsRun(r) && Quiet(r) && i < |r.states|
    ensures Fifo(r.states[i]) && (r.states[i].pc.Reload? ==> !r.states[i].pc.moved)
  {
    if i == 0 {
      InitInv(r.states[0]);
    } else {
      RunInv(r, i - 1);
      QuietRunsAreFifo(r, i - 1);
      assert StepAt(r, i - 1);
      StepKeepsOrder(r.states[i - 1], r.actions[i - 1]);
    }
  }

  lemma Extend(r: Run, a: Action) returns (r': Run)
    requires IsRun(r) && |r.states[|r.actions|].slots| > 0 && Enabled(r.states[|r.actions|], a)
    ensures IsRun(r') && |r'.actions| == |r.actions| + 1 && r'.states[|r.actions| + 1] == Apply(r.states[|r.actions|], a)
  {
    r' := Run(r.states + [Apply(r.states[|r.actions|], a)], r.actions + [a]);
    forall i: nat | i < |r'.actions|
      ensures StepAt(r', i)
    {
      if i < |r.actions| { assert StepAt(r, i); }
    }
  }

  /** A run that publishes the third completion before the second: the ring of one slot is full
      when the drain loop looks, and empty when the head is reloaded. */
  lemma OrderCanBreak()
    ensures exists r: Run :: IsRun(r) && !Fifo(r.states[|r.actions|])
  {
    var c0, c1, c2 := Cqe(0, 0, 0), Cqe(1, 0, 1), Cqe(2, 0, 2);
    var r, s := FirstTwoPosts();
    r := Extend(r, Start(2, 0));
    r := Extend(r, Stop);
    assert r.states[8] == State([c0], 0, 1, [c1], Reload(c2, false), [c0], 0, [c0, c1], 3);
    r := Extend(r, Take);
    assert r.states[9] == State([c0], 1, 1, [c1], Reload(c2, true), [c0], 1, [c0, c1], 3);
    r := Extend(r, Finish(true));
    var t := r.states[10];
    assert t.accepted[1] == c1 && (t.published + t.overflow)[1] == c2;
  }

  lemma FirstTwoPosts() returns (r: Run, s: State)
    ensures IsRun(r) && |r.actions| == 6
    ensures r.states[6] == State([Cqe(0, 0, 0)], 0, 1, [Cqe(1, 0, 1)], Idle, [Cqe(0, 0, 0)], 0, [Cqe(0, 0, 0), Cqe(1, 0, 1)], 2)
  {
    var c0, c1 := Cqe(0, 0, 0), Cqe(1, 0, 1);
    r := Run([State([c0], 0, 0, [], Idle, [], 0, [], 0)], []);
    assert IsPow2(1);
    r := Extend(r, Start(0, 0));
    r := Extend(r, Stop);
    r := Extend(r, Finish(true));
    assert r.states[3] == State([c0], 0, 1, [], Idle, [c0], 0, [c0], 1);
    r := Extend(r, Start(1, 0));
    r := Extend(r, Stop);
    r := Extend(r, Finish(true));
    s := r.states[6];
  }

  // ---------------------------------------------------------------- one post without interference

  method DrainOne(s: State) returns (s': State)
    requires Inv(s) && Fifo(s) && Enabled(s, Drain)
    ensures Inv(s') && Fifo(s') && s'.pc == s.pc && s'.accepted == s.accepted && s'.head == s.head && s'.taken == s.taken
    ensures s.published <= s'.published && |s'.overflow| < |s.overflow|
  {
    StepKeepsInv(s, Drain);
    StepKeepsOrder(s, Drain);
    s' := Apply(s, Drain);
  }

  method FinishPost(s: State, memory: bool) returns (s': State)
    requires Inv(s) && Fifo(s) && s.pc.Reload? && !s.pc.moved
    ensures Inv(s') && Fifo(s') && s'.pc.Idle? && s'.head == s.head && s'.taken == s.taken && s.published <= s'.published
    ensures s'.overflow != [] ==> Full(s')
    ensures if Full(s) && !memory then s'.accepted == s.accepted && Full(s') else s'.accepted == s.accepted + [s.pc.cqe]
  {
    StepKeepsInv(s, Finish(memory));
    FinishKeepsOrderIff(s, memory);
    s' := Apply(s, Finish(memory));
  }

  method StopAndFinish(s: State, memory: bool) returns (s': State)
    requires Inv(s) && Fifo(s) && Enabled(s, Stop)
    ensures Inv(s') && Fifo(s') && s'.pc.Idle? && s'.head == s.head && s'.taken == s.taken && s.published <= s'.published
    ensures s'.overflow != [] ==> Full(s')
    ensures if Full(s) && !memory then s'.accepted == s.accepted && Full(s') else s'.accepted == s.accepted + [s.pc.cqe]
  {
    StopState(s);
    s' := FinishPost(Apply(s, Stop), memory);
  }

  lemma StopState(s: State)
    requires Inv(s) && Fifo(s) && Enabled(s, Stop)
    ensures var t := Apply(s, Stop);
            && Inv(t) && Fifo(t) && t.pc == Reload(s.pc.cqe, false) && (Full(t) <==> Full(s))
            && t.head == s.head && t.taken == s.taken && t.published == s.published && t.accepted == s.accepted
  {
    StepKeepsInv(s, Stop);
  }

  /** io_uring_post_cqe while the user leaves the head alone: the overflow list moves into the
      ring as far as it fits, in order, and the new completion goes behind it. */
  method Post(s: State, userData: nat, res: int, memory: bool) returns (s': State)
    requires Inv(s) && Fifo(s) && s.pc.Idle?
    ensures Inv(s') && Fifo(s') && s'.pc.Idle? && s'.head == s.head && s'.taken == s.taken
    ensures s.published <= s'.published
    ensures s'.overflow != [] ==> Full(s')
    ensures s'.accepted == s.accepted + [Cqe(userData, res, s.posts)] || (!memory && Full(s') && s'.accepted == s.accepted)
  {
    StepKeepsInv(s, Start(userData, res));
    s' := Apply(s, Start(userData, res));
    while s'.overflow != [] && !Full(s')
      invariant Inv(s') && Fifo(s') && s'.pc == Draining(Cqe(userData, res, s.posts))
      invariant s'.accepted == s.accepted && s'.head == s.head && s'.taken == s.taken && s.published <= s'.published
      decreases |s'.overflow|
    {
      s' := DrainOne(s');
    }
    s' := StopAndFinish(s', memory);
  }
}
