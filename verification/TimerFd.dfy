/** Timer file descriptors (kernel/io/timerfd.c): one CPU's list of armed timers sorted by
    expiry, the cached expiry of its head, and the expiration counts that reads collect. */
module TimerFd {
  import opened Arithmetic

  const U64: nat := 0x1_0000_0000_0000_0000

  /** `expiry`, `interval` and `pending` are the timer; the rest is history since it was last
      armed: the first expiry, the sum of values read and pending at that time, the values read
      since the timer was created, and the expirations counted since it was armed. */
  datatype Timer = Timer(id: nat, expiry: nat, interval: nat, pending: nat, start: nat, base: nat, taken: nat, count: nat)

  // ---------------------------------------------------------------- counting expirations

  /** The number of k >= 0 with start + k * interval <= time; a one-shot timer has k = 0 only. */
  function Fired(start: nat, interval: nat, time: nat): nat
  {
    if time < start then 0 else if interval == 0 then 1 else (time - start) / interval + 1
  }

  /** The k-th expiry of a timer, counting from 0. */
  function ExpiryNumber(start: nat, interval: nat, k: nat): nat
  {
    if k == 0 then start else ExpiryNumber(start, interval, k - 1) + interval
  }

  lemma {:induction false} ExpiryNumberIs(start: nat, interval: nat, k: nat)
    ensures ExpiryNumber(start, interval, k) == start + k * interval
  {
    if k > 0 { ExpiryNumberIs(start, interval, k - 1); }
  }

  ghost function Expirations(start: nat, interval: nat, time: nat): set<nat>
  {
    set k: nat | k <= time && ExpiryNumber(start, interval, k) <= time && (interval == 0 ==> k == 0)
  }

  ghost function Below(n: nat): (r: set<nat>)
    ensures |r| == n && forall k: nat :: k in r <==> k < n
  {
    if n == 0 then {} else Below(n - 1) + {n - 1}
  }

  lemma QuotientIs(past: nat, p: nat, k: nat)
    requires p > 0
    ensures k * p <= past <==> k <= past / p
  {
    var q := past / p;
    assert past == q * p + past % p;
    if k <= q { Monotone(k, q, p); } else { Monotone(q + 1, k, p); }
  }

  lemma FiredCounts(start: nat, interval: nat, time: nat)
    ensures Fired(start, interval, time) == |Expirations(start, interval, time)|
  {
    var n := Fired(start, interval, time);
    forall k: nat
      ensures k in Expirations(start, interval, time) <==> k in Below(n)
    {
      ExpiryNumberIs(start, interval, k);
      if time >= start && interval > 0 {
        QuotientIs(time - start, interval, k);
        Monotone(1, interval, k);
        assert k * 1 <= k * interval;
      }
    }
    assert Expirations(start, interval, time) == Below(n);
  }

  // ---------------------------------------------------------------- one timer

  /** What the accounting of an armed timer says, `time` being the time of the last tick: it has
      expired `count` times, the last time not after `time`, and nothing was lost. */
  ghost predicate Armed(t: Timer, time: nat)
  {
    && t.taken + t.pending == t.base + t.count && t.expiry == ExpiryNumber(t.start, t.interval, t.count) < U64
    && (t.count > 0 ==> t.interval > 0 && ExpiryNumber(t.start, t.interval, t.count - 1) <= time)
    && t.interval < U64
  }

  /** A timer that is not in the list: disarmed, or a one-shot timer that has expired. */
  ghost predicate Parked(t: Timer, time: nat)
  {
    && t.taken + t.pending == t.base + t.count
    && (t.count > 0 ==> t.count == 1 && t.interval == 0 && t.start <= time)
  }

  /** An armed timer that is not due has been counted exactly. */
  lemma CountedExactly(t: Timer, time: nat)
    requires Armed(t, time) && t.expiry > time
    ensures Exact(t, time)
  {
    FiredCounts(t.start, t.interval, time);
    if t.count > 0 {
      ExpiryNumberIs(t.start, t.interval, t.count - 1);
      ExpiryNumberIs(t.start, t.interval, t.count);
      FiredIs(t.start, t.interval, t.count - 1, t.count, time);
    }
  }

  lemma FiredIs(start: nat, p: nat, k: nat, n: nat, time: nat)
    requires p > 0 && n == k + 1 && start + k * p <= time < start + n * p
    ensures Fired(start, p, time) == n
  {
    QuotientUnique(time - start, p, k, n);
  }

  lemma QuotientUnique(past: nat, p: nat, k: nat, n: nat)
    requires p > 0 && n == k + 1 && k * p <= past < n * p
    ensures past / p == k
  {
    QuotientIs(past, p, k);
    QuotientIs(past, p, n);
  }

  /** What was read and what is pending are the expirations up to `time`, each once. */
  ghost predicate Exact(t: Timer, time: nat)
  {
    t.taken + t.pending == t.base + |Expirations(t.start, t.interval, time)|
  }

  lemma ExpiredExactly(t: Timer, time: nat)
    requires Parked(t, time) && t.count > 0
    ensures Exact(t, time)
  {
    FiredCounts(t.start, t.interval, time);
  }

  /** The timer after the tick handler took it off the list at `now`. */
  function Fire(t: Timer, now: nat): Timer
    requires t.expiry <= now
  {
    var missed := if t.interval != 0 then 1 + (now - t.expiry) / t.interval else 1;
    t.(pending := t.pending + missed, count := t.count + missed,
       expiry := if t.interval != 0 then (t.expiry + missed * t.interval) % U64 else t.expiry)
  }

  /** The periodic step lands behind `now` if and only if it does not pass 2^64. */
  lemma NextExpiryIsLaterIff(t: Timer, now: nat)
    requires t.expiry <= now < U64 && 0 < t.interval < U64
    ensures var missed := 1 + (now - t.expiry) / t.interval;
            && now < t.expiry + missed * t.interval <= now + t.interval
            && (Fire(t, now).expiry > now <==> t.expiry + missed * t.interval < U64)
  {
    var q := (now - t.expiry) / t.interval;
    StepBounds(t.expiry, t.interval, now, q);
    WrapOnce(t.expiry + (1 + q) * t.interval);
  }

  lemma StepBounds(expiry: nat, p: nat, now: nat, q: nat)
    requires expiry <= now && p > 0 && q == (now - expiry) / p
    ensures now < expiry + (1 + q) * p <= now + p
  {
    QuotientIs(now - expiry, p, q);
    QuotientIs(now - expiry, p, q + 1);
    assert (1 + q) * p == q * p + p;
  }

  lemma WrapOnce(next: nat)
    requires next < 2 * U64
    ensures next % U64 == if next < U64 then next else next - U64
  {
  }

  /** The step of a due periodic timer stays below 2^64. */
  predicate StepFits(t: Timer, now: nat)
  {
    t.interval == 0 || now < t.expiry || t.expiry + (1 + (now - t.expiry) / t.interval) * t.interval < U64
  }

  /** Two timers whose step does not fit.  The first stays due and is counted again by the same
      tick, though it has expired once; the second comes back to the same expiry, so the tick
      never ends. */
  lemma LongIntervals()
    ensures var t := Timer(0, 50, U64 - 1, 0, 50, 0, 0, 0);
            && Armed(t, 0) && !StepFits(t, 100) && Fire(t, 100).expiry == 49
            && Fire(Fire(t, 100), 100).pending == 2 && |Expirations(50, U64 - 1, 100)| == 1
    ensures var t := Timer(0, 3, U64 / 2, 0, 3, 0, 0, 0);
            Armed(t, 0) && !StepFits(t, U64 / 2 + 5) && Fire(t, U64 / 2 + 5).expiry == 3
  {
    FiredCounts(50, U64 - 1, 100);
  }

  lemma FireArmed(t: Timer, time: nat, now: nat)
    requires Armed(t, time) && t.expiry <= now < U64 && StepFits(t, now) && t.interval > 0
    ensures Armed(Fire(t, now), now) && Fire(t, now).expiry > now
  {
    var q := (now - t.expiry) / t.interval;
    FireArmedBy(t, time, now, q, t.expiry + (1 + q) * t.interval);
  }

  lemma FireArmedBy(t: Timer, time: nat, now: nat, q: nat, next: nat)
    requires Armed(t, time) && t.expiry <= now && t.interval > 0
    requires q == (now - t.expiry) / t.interval && next == t.expiry + (1 + q) * t.interval < U64
    ensures Armed(Fire(t, now), now) && Fire(t, now).expiry > now
  {
    StepBounds(t.expiry, t.interval, now, q);
    StepExpiry(t.start, t.interval, t.count, q, t.expiry, now);
    FireIs(t, now, q, next);
    ArmedAfter(t, time, q, next, now, Fire(t, now));
  }

  lemma FireIs(t: Timer, now: nat, q: nat, next: nat)
    requires t.expiry <= now && t.interval > 0 && q == (now - t.expiry) / t.interval && next == t.expiry + (1 + q) * t.interval < U64
    ensures Fire(t, now) == t.(pending := t.pending + (1 + q), count := t.count + (1 + q), expiry := next)
  {
  }

  lemma ArmedAfter(t: Timer, time: nat, q: nat, next: nat, now: nat, t': Timer)
    requires Armed(t, time) && t.interval > 0
    requires t' == t.(pending := t.pending + (1 + q), count := t.count + (1 + q), expiry := next)
    requires next == ExpiryNumber(t.start, t.interval, t.count + (1 + q)) < U64
    requires ExpiryNumber(t.start, t.interval, t.count + (1 + q) - 1) <= now
    ensures Armed(t', now)
  {
  }

  /** `1 + q` expirations later. */
  lemma StepExpiry(start: nat, p: nat, count: nat, q: nat, expiry: nat, now: nat)
    requires p > 0 && expiry == ExpiryNumber(start, p, count) <= now && q == (now - expiry) / p
    ensures expiry + (1 + q) * p == ExpiryNumber(start, p, count + (1 + q))
    ensures ExpiryNumber(start, p, count + (1 + q) - 1) <= now
  {
    QuotientIs(now - expiry, p, q);
    ExpiryNumberIs(start, p, count);
    ExpiryNumberIs(start, p, count + q);
    ExpiryNumberIs(start, p, count + (1 + q));
    Distribute(count, 1 + q, p);
    Distribute(count, q, p);
  }

  lemma Distribute(a: nat, b: nat, p: nat)
    ensures (a + b) * p == a * p + b * p
  {
  }

  lemma FireOnce(t: Timer, time: nat, now: nat)
    requires Armed(t, time) && t.expiry <= now && t.interval == 0
    ensures Parked(Fire(t, now), now)
  {
  }

  // ---------------------------------------------------------------- the list

  type Timers = map<nat, Timer>

  /** The list names known timers, each once, in order of expiry. */
  ghost predicate Sorted(list: seq<nat>, timers: Timers)
  {
    && (forall i: nat | i < |list| :: list[i] in timers)
    && (forall i: nat, j: nat | i < j < |list| :: list[i] != list[j] && timers[list[i]].expiry <= timers[list[j]].expiry)
  }

  ghost predicate Accounts(list: seq<nat>, timers: Timers, time: nat)
  {
    forall id | id in timers :: if id in list then Armed(timers[id], time) else Parked(timers[id], time)
  }

  ghost predicate QueueOk(list: seq<nat>, timers: Timers, time: nat)
  {
    Sorted(list, timers) && Accounts(list, timers, time)
  }

  function HeadExpiry(list: seq<nat>, timers: Timers): nat
    requires list != [] ==> list[0] in timers
  {
    if list == [] then U64 - 1 else timers[list[0]].expiry
  }

  /** The early return of the tick skips nothing. */
  lemma EarlyReturnSkipsNothing(list: seq<nat>, timers: Timers, now: nat)
    requires Sorted(list, timers) && HeadExpiry(list, timers) > now
    ensures forall i: nat | i < |list| :: timers[list[i]].expiry > now
  {
  }

  /** tfd_list_insert: behind all timers that expire no later. */
  method Insert(list: seq<nat>, timers: Timers, id: nat) returns (list': seq<nat>)
    requires Sorted(list, timers) && id in timers && id !in list
    ensures Sorted(list', timers) && forall x :: x in list' <==> x in list || x == id
    ensures exists k: nat :: k <= |list| && list' == list[..k] + [id] + list[k..]
                             && (forall i: nat | i < k :: timers[list[i]].expiry <= timers[id].expiry)
                             && (k < |list| ==> timers[id].expiry < timers[list[k]].expiry)
  {
    var p: nat := 0;
    while p < |list| && timers[list[p]].expiry <= timers[id].expiry
      invariant p <= |list| && forall i: nat | i < p :: timers[list[i]].expiry <= timers[id].expiry
    {
      p := p + 1;
    }
    list' := list[..p] + [id] + list[p..];
    InsertedAt(list, timers, id, p, list');
  }

  lemma InsertedAt(list: seq<nat>, timers: Timers, id: nat, p: nat, list': seq<nat>)
    requires Sorted(list, timers) && id in timers && id !in list && p <= |list| && list' == list[..p] + [id] + list[p..]
    requires forall i: nat | i < p :: timers[list[i]].expiry <= timers[id].expiry
    requires p < |list| ==> timers[id].expiry < timers[list[p]].expiry
    ensures Sorted(list', timers) && forall x :: x in list' <==> x in list || x == id
  {
    MembersAfterInsert(list, id, p, list');
    forall i: nat, j: nat | i < j < |list'|
      ensures list'[i] != list'[j] && timers[list'[i]].expiry <= timers[list'[j]].expiry
    {
      assert list'[i] == if i < p then list[i] else if i == p then id else list[i - 1];
      assert list'[j] == if j < p then list[j] else if j == p then id else list[j - 1];
    }
  }

  lemma MembersAfterInsert(list: seq<nat>, id: nat, p: nat, list': seq<nat>)
    requires p <= |list| && list' == list[..p] + [id] + list[p..]
    ensures forall x :: x in list' <==> x in list || x == id
  {
    assert list == list[..p] + list[p..];
  }

  /** tfd_list_remove */
  method Remove(list: seq<nat>, ghost timers: Timers, id: nat) returns (list': seq<nat>)
    requires Sorted(list, timers)
    ensures Sorted(list', timers) && forall x :: x in list' <==> x in list && x != id
  {
    var p: nat := 0;
    while p < |list| && list[p] != id
      invariant p <= |list| && forall i: nat | i < p :: list[i] != id
    {
      p := p + 1;
    }
    if p == |list| { return list; }
    list' := list[..p] + list[p + 1..];
    RemovedAt(list, timers, p, list');
  }

  lemma RemovedAt(list: seq<nat>, timers: Timers, p: nat, list': seq<nat>)
    requires Sorted(list, timers) && p < |list| && list' == list[..p] + list[p + 1..]
    ensures Sorted(list', timers) && forall x :: x in list' <==> x in list && x != list[p]
  {
    assert forall i: nat | i < |list'| :: list'[i] == list[if i < p then i else i + 1];
    forall x | x in list && x != list[p]
      ensures x in list'
    {
      var i: nat :| i < |list| && list[i] == x;
      assert list'[if i < p then i else i - 1] == x;
    }
  }

  ghost function Due(list: seq<nat>, timers: Timers, now: nat): set<nat>
    requires forall i: nat | i < |list| :: list[i] in timers
  {
    set id | id in list && timers[id].expiry <= now
  }

  /** Only what an expiration changes has changed. */
  ghost predicate SameTimer(t: Timer, t': Timer)
  {
    t' == t.(expiry := t'.expiry, pending := t'.pending, count := t'.count)
  }

  ghost predicate SameTimers(timers: Timers, timers': Timers)
  {
    timers'.Keys == timers.Keys && forall id | id in timers :: SameTimer(timers[id], timers'[id])
  }

  /** The arithmetic of one expiration: a periodic timer is no longer due exactly when its step fits. */
  method FireTimer(t: Timer, now: nat) returns (t': Timer)
    requires Armed(t, now) && t.expiry <= now < U64
    ensures SameTimer(t, t') && t'.count > 0
    ensures t.interval == 0 ==> Parked(t', now)
    ensures t.interval != 0 ==> (t'.expiry > now <==> StepFits(t, now))
    ensures t.interval != 0 && StepFits(t, now) ==> Armed(t', now)
  {
    t' := Fire(t, now);
    FireCounts(t, now);
    if t.interval == 0 {
      FireOnce(t, now, now);
    } else {
      FirePeriodic(t, now);
    }
  }

  lemma FireCounts(t: Timer, now: nat)
    requires t.expiry <= now
    ensures SameTimer(t, Fire(t, now)) && Fire(t, now).count > 0
  {
  }

  lemma FirePeriodic(t: Timer, now: nat)
    requires Armed(t, now) && t.expiry <= now < U64 && t.interval != 0
    ensures Fire(t, now).expiry > now <==> StepFits(t, now)
    ensures StepFits(t, now) ==> Armed(Fire(t, now), now)
  {
    if StepFits(t, now) {
      FireArmed(t, now, now);
    } else {
      NextExpiryIsLaterIff(t, now);
    }
  }

  /** One turn of the drain loop: the head fires, and is put back if it is periodic.  `late` says
      that it is still due. */
  method FireHead(list: seq<nat>, timers: Timers, now: nat) returns (list': seq<nat>, timers': Timers, late: bool)
    requires QueueOk(list, timers, now) && list != [] && timers[list[0]].expiry <= now < U64
    ensures Sorted(list', timers') && SameTimers(timers, timers') && timers'[list[0]].count > 0
    ensures late <==> !StepFits(timers[list[0]], now)
    ensures list[0] in list' <==> timers[list[0]].interval != 0
    ensures late ==> list[0] in list' && timers'[list[0]].expiry <= now
    ensures !late ==> QueueOk(list', timers', now) && Due(list', timers', now) == Due(list, timers, now) - {list[0]}
    ensures forall id | id in timers && id != list[0] :: timers'[id] == timers[id] && (id in list' <==> id in list)
  {
    var id, rest := list[0], list[1..];
    var t := FireTimer(timers[id], now);
    timers' := timers[id := t];
    HeadOff(list, rest, timers, id, t, now);
    list' := rest;
    late := t.interval != 0 && t.expiry <= now;
    if t.interval != 0 {
      list' := Insert(rest, timers', id);
      if !late { BackOn(rest, list', timers', id, now); }
    }
    if !late { DueAfter(list, list', timers, timers', id, now); }
  }

  /** All timers but `id` are accounted for. */
  ghost predicate Others(list: seq<nat>, timers: Timers, id: nat, time: nat)
  {
    forall x | x in timers && x != id :: if x in list then Armed(timers[x], time) else Parked(timers[x], time)
  }

  lemma HeadOff(list: seq<nat>, rest: seq<nat>, timers: Timers, id: nat, t: Timer, now: nat)
    requires QueueOk(list, timers, now) && list != [] && id == list[0] && rest == list[1..]
    ensures Sorted(rest, timers[id := t]) && id !in rest && Others(rest, timers[id := t], id, now)
    ensures forall x :: x in list <==> x == id || x in rest
    ensures Parked(t, now) ==> QueueOk(rest, timers[id := t], now)
  {
    TailOf(list, rest, id);
    TailSorted(list, rest, timers, id, t);
  }

  lemma TailOf(list: seq<nat>, rest: seq<nat>, id: nat)
    requires list != [] && id == list[0] && rest == list[1..]
    ensures forall x :: x in list <==> x == id || x in rest
  {
    assert list == [id] + rest;
  }

  lemma TailSorted(list: seq<nat>, rest: seq<nat>, timers: Timers, id: nat, t: Timer)
    requires Sorted(list, timers) && list != [] && id == list[0] && rest == list[1..]
    ensures Sorted(rest, timers[id := t]) && id !in rest
  {
    assert forall i: nat | i < |rest| :: rest[i] == list[i + 1];
  }

  lemma BackOn(rest: seq<nat>, list': seq<nat>, timers: Timers, id: nat, now: nat)
    requires Others(rest, timers, id, now) && id in timers && Armed(timers[id], now) && Sorted(list', timers)
    requires forall x :: x in list' <==> x in rest || x == id
    ensures QueueOk(list', timers, now)
  {
  }

  lemma DueAfter(list: seq<nat>, list': seq<nat>, timers: Timers, timers': Timers, id: nat, now: nat)
    requires Sorted(list, timers) && Sorted(list', timers') && id in timers && id in timers' && timers' == timers[id := timers'[id]]
    requires forall x | x != id :: x in list' <==> x in list
    requires id in list' ==> timers'[id].expiry > now
    ensures Due(list', timers', now) == Due(list, timers, now) - {id}
  {
  }

  // ---------------------------------------------------------------- one CPU's timers

  class TimerQueue {
    var timers: Timers
    var list: seq<nat>
    var headExpiry: nat
    var lastTick: nat

    ghost predicate Valid()
      reads this
    {
      QueueOk(list, timers, lastTick) && headExpiry == HeadExpiry(list, timers)
    }

    /** No timer. */
    constructor ()
      ensures Valid() && timers == map[] && list == [] && lastTick == 0
    {
      timers, list, headExpiry, lastTick := map[], [], U64 - 1, 0;
    }

    /** timerfd_new: a timer that is not armed. */
    method Create(id: nat)
      requires Valid() && id !in timers
      modifies this`timers
      ensures Valid() && timers.Keys == old(timers.Keys) + {id} && forall x | x in old(timers) :: timers[x] == old(timers)[x]
      ensures timers[id].id == id && timers[id].expiry == timers[id].interval == timers[id].pending == 0
    {
      timers := timers[id := Disarmed(id)];
    }

    /** timerfd_close_op */
    method Close(id: nat)
      requires Valid() && id in timers
      modifies this`timers, this`list, this`headExpiry
      ensures Valid() && timers == old(timers) - {id} && forall x :: x in list <==> x in old(list) && x != id
    {
      var _ := Detach(id);
    }

    /** The timer leaves the list and the queue. */
    method Detach(id: nat) returns (t: Timer)
      requires Valid() && id in timers
      modifies this`timers, this`list, this`headExpiry
      ensures Valid() && t == old(timers[id]) && timers == old(timers) - {id} && forall x :: x in list <==> x in old(list) && x != id
    {
      t := timers[id];
      list := Remove(list, timers, id);
      timers := timers - {id};
      assert forall i: nat | i < |list| :: list[i] in list;
      headExpiry := HeadExpiry(list, timers);
    }

    /** A timer that is not armed joins the queue. */
    method Adopt(id: nat, t: Timer)
      requires Valid() && id !in timers && Parked(t, lastTick)
      modifies this`timers
      ensures Valid() && timers == old(timers)[id := t]
    {
      timers := timers[id := t];
    }

    /** A timer that is armed for `t.expiry` joins the queue. */
    method Join(id: nat, t: Timer)
      requires Valid() && id !in timers && Armed(t, lastTick)
      modifies this`timers, this`list, this`headExpiry
      ensures Valid() && timers == old(timers)[id := t] && forall x :: x in list <==> x in old(list) || x == id
    {
      ghost var list0, timers0 := list, timers;
      NewTimer(list, timers, id, t);
      timers := timers[id := t];
      list := Insert(list, timers, id);
      JoinKeeps(list0, list, timers0, id, t, lastTick);
      headExpiry := HeadExpiry(list, timers);
    }

    /** timerfd_tick, up to a timer that is still due after it fired (`late`).  There is one exactly
        when the step of a due periodic timer does not fit.  Without one no timer is due afterwards,
        and the values read from and pending in every armed timer are the number of its expirations
        up to now, however the ticks were spaced. */
    method Tick(now: nat) returns (late: bool)
      requires Valid() && lastTick <= now < U64
      modifies this
      ensures late <==> !AllFit(old(list), old(timers), now)
      ensures late ==> exists i: nat :: i < |list| && list[i] in timers && timers[list[i]].expiry <= now && timers[list[i]].count > 0
      ensures !late ==> Valid() && lastTick == now && SameTimers(old(timers), timers)
      ensures !late ==> forall i: nat | i < |list| :: timers[list[i]].expiry > now
      ensures !late ==> forall id | id in old(list) :: Exact(timers[id], now)
      ensures !late ==> forall id | id in old(timers) && id !in old(list) :: timers[id] == old(timers[id]) && id !in list
      ensures !late ==> forall id | id in old(list) && old(timers)[id].expiry > now :: timers[id] == old(timers)[id] && id in list
      ensures !late ==> forall id | id in old(list) && old(timers)[id].expiry <= now :: id in list <==> old(timers)[id].interval != 0
    {
      LaterTime(list, timers, lastTick, now);
      lastTick, late := now, false;
      if headExpiry > now {
        EarlyReturnSkipsNothing(list, timers, now);
      } else {
        list, timers, late := Drain(list, timers, now);
        headExpiry := HeadExpiry(list, timers);
      }
      if !late { AllExact(list, timers, now, old(list)); }
    }

    /** timerfd_read_op without blocking: the pending count in 8 bytes, or an error. */
    method Read(id: nat, len: nat) returns (r: int, count: nat)
      requires Valid() && id in timers
      modifies this`timers
      ensures Valid()
      ensures r == if len < 8 then -EINVAL else if old(timers[id].pending) == 0 then -EAGAIN else 8
      ensures count == if r == 8 then old(timers[id].pending) else 0
      ensures timers == old(timers)[id := old(timers[id]).(pending := old(timers[id]).pending - count, taken := old(timers[id]).taken + count)]
    {
      if len < 8 { return -EINVAL, 0; }
      var t := timers[id];
      count := t.pending;
      timers := timers[id := t.(pending := 0, taken := t.taken + count)];
      r := if count != 0 then 8 else -EAGAIN;
    }
  }

  const EINVAL := 22
  const EAGAIN := 11

  function Disarmed(id: nat): Timer
  {
    Timer(id, 0, 0, 0, 0, 0, 0, 0)
  }

  /** What is left of the time to the next expiry. */
  function Remaining(t: Timer, now: nat): nat
  {
    if t.expiry > now then t.expiry - now else 0
  }

  /** The absolute expiry that a setting asks for; 0 disarms. */
  function NewExpiry(now: nat, value: nat, absolute: bool): (r: nat)
    requires now < U64 && value < U64
    ensures r < U64
  {
    if value == 0 then 0 else if absolute then value else (now + value) % U64
  }

  /** timerfd_settime: the timer leaves the CPU it was on and, unless it is disarmed, joins the
      calling CPU's list; what is pending stays pending.  The old setting is returned. */
  method SetTime(home: TimerQueue, here: TimerQueue, id: nat, now: nat, value: nat, interval: nat, absolute: bool)
    returns (left: nat, every: nat)
    requires home.Valid() && here.Valid() && id in home.timers && (home != here ==> id !in here.timers)
    requires now < U64 && value < U64 && interval < U64
    modifies home`timers, home`list, home`headExpiry, here`timers, here`list, here`headExpiry
    ensures home.Valid() && here.Valid()
    ensures if old(home.timers[id].expiry) > now then now + left == old(home.timers[id].expiry) else left == 0
    ensures every == old(home.timers[id].interval)
    ensures var t0 := old(home.timers[id]);
            var disarms := value == 0 || (!absolute && now + value == U64);
            && (disarms ==> id in home.timers && id !in home.list && id !in here.list && IsSet(t0, home.timers[id], 0, 0))
            && (disarms ==> home.timers == old(home.timers)[id := home.timers[id]])
            && (disarms && home != here ==> here.timers == old(here.timers) && here.list == old(here.list))
            && (!disarms ==> id in here.timers && id in here.list && here.timers == old(here.timers)[id := here.timers[id]])
            && (!disarms && absolute ==> IsSet(t0, here.timers[id], value, interval))
            && (!disarms && !absolute && now + value < U64 ==> IsSet(t0, here.timers[id], now + value, interval))
            && (!disarms && !absolute && now + value > U64 ==> IsSet(t0, here.timers[id], now + value - U64, interval))
            && (!disarms && home != here ==> home.timers == old(home.timers) - {id} && id !in home.list)
    ensures forall x | x != id :: (x in here.list <==> x in old(here.list)) && (x in home.list <==> x in old(home.list))
  {
    var expiry := NewExpiry(now, value, absolute);
    var t := home.timers[id];
    left, every := Remaining(t, now), t.interval;
    if expiry == 0 {
      Disarm(home, id, Rearmed(t, 0, interval));
    } else {
      RearmedIsArmed(t, expiry, interval, here.lastTick);
      Move(home, here, id, Rearmed(t, expiry, interval));
    }
  }

  /** The timer waits for `expiry` from now on, every `interval` again; what is pending and what has
      been read stays. */
  ghost predicate IsSet(t0: Timer, t: Timer, expiry: nat, interval: nat)
  {
    && t.id == t0.id && t.expiry == t.start == expiry && t.interval == interval && t.count == 0
    && t.pending == t0.pending && t.taken == t0.taken && t.base == t0.taken + t0.pending
  }

  /** From a relative setting to a later tick: the values that can be read have grown by exactly the
      expirations behind the setting, none before its time. */
  method ArmThenTick(q: TimerQueue, id: nat, now: nat, value: nat, interval: nat, later: nat) returns (late: bool)
    requires q.Valid() && id in q.timers && 0 < value < U64 && interval < U64 && now + value < U64 && q.lastTick <= later < U64
    modifies q
    ensures !late ==> q.Valid() && id in q.timers
                      && q.timers[id].pending == old(q.timers[id].pending) + |Expirations(now + value, interval, later)|
    ensures !late && later < now + value ==> q.timers[id].pending == old(q.timers[id].pending)
  {
    ghost var t0 := q.timers[id];
    var _, _ := SetTime(q, q, id, now, value, interval, false);
    ghost var t1 := q.timers[id];
    assert IsSet(t0, t1, now + value, interval) && id in q.list;
    late := q.Tick(later);
    if !late { PendingGrows(t0, t1, q.timers[id], now + value, interval, later); }
  }

  lemma PendingGrows(t0: Timer, t1: Timer, t2: Timer, expiry: nat, interval: nat, time: nat)
    requires IsSet(t0, t1, expiry, interval) && Exact(t2, time)
    requires t2.start == t1.start && t2.interval == t1.interval && t2.base == t1.base && t2.taken == t1.taken
    ensures t2.pending == t0.pending + |Expirations(expiry, interval, time)|
    ensures time < expiry ==> t2.pending == t0.pending
  {
    FiredCounts(expiry, interval, time);
  }

  lemma RearmedIsArmed(t: Timer, expiry: nat, interval: nat, time: nat)
    requires 0 < expiry < U64 && interval < U64
    ensures Armed(Rearmed(t, expiry, interval), time)
  {
  }

  method Disarm(home: TimerQueue, id: nat, t: Timer)
    requires home.Valid() && id in home.timers && Parked(t, home.lastTick)
    modifies home`timers, home`list, home`headExpiry
    ensures home.Valid() && home.timers == old(home.timers)[id := t]
    ensures forall x :: x in home.list <==> x in old(home.list) && x != id
  {
    ghost var timers := home.timers;
    var _ := home.Detach(id);
    home.Adopt(id, t);
    assert (timers - {id})[id := t] == timers[id := t];
  }

  method Move(home: TimerQueue, here: TimerQueue, id: nat, t: Timer)
    requires home.Valid() && here.Valid() && id in home.timers && (home != here ==> id !in here.timers) && Armed(t, here.lastTick)
    modifies home`timers, home`list, home`headExpiry, here`timers, here`list, here`headExpiry
    ensures home.Valid() && here.Valid() && here.timers == old(here.timers)[id := t] && id in here.list
    ensures home != here ==> home.timers == old(home.timers) - {id}
    ensures forall x | x != id :: (x in here.list <==> x in old(here.list)) && (x in home.list <==> x in old(home.list))
  {
    ghost var timers := here.timers;
    var _ := home.Detach(id);
    here.Join(id, t);
    assert (timers - {id})[id := t] == timers[id := t];
  }

  /** The timer armed for `expiry`, or disarmed when that is 0; the history starts again. */
  function Rearmed(t: Timer, expiry: nat, interval: nat): Timer
  {
    t.(expiry := expiry, interval := if expiry == 0 then 0 else interval, start := expiry, base := t.taken + t.pending, count := 0)
  }

  lemma NewTimer(list: seq<nat>, timers: Timers, id: nat, t: Timer)
    requires Sorted(list, timers) && id !in timers
    ensures Sorted(list, timers[id := t]) && id !in list
  {
    assert id in list ==> id in timers;
  }

  lemma JoinKeeps(list: seq<nat>, list': seq<nat>, timers: Timers, id: nat, t: Timer, time: nat)
    requires QueueOk(list, timers, time) && id !in timers && Sorted(list', timers[id := t]) && Armed(t, time)
    requires forall x :: x in list' <==> x in list || x == id
    ensures QueueOk(list', timers[id := t], time)
  {
  }

  lemma AllExact(list: seq<nat>, timers: Timers, time: nat, ids: seq<nat>)
    requires QueueOk(list, timers, time) && forall i: nat | i < |list| :: timers[list[i]].expiry > time
    requires forall id | id in ids :: id in timers && (id in list || timers[id].count > 0)
    ensures forall id | id in ids :: Exact(timers[id], time)
  {
    forall id | id in ids
      ensures Exact(timers[id], time)
    {
      if id in list { CountedExactly(timers[id], time); } else { ExpiredExactly(timers[id], time); }
    }
  }

  lemma LaterTime(list: seq<nat>, timers: Timers, time: nat, now: nat)
    requires QueueOk(list, timers, time) && time <= now
    ensures QueueOk(list, timers, now)
  {
  }

  ghost predicate AllFit(list: seq<nat>, timers: Timers, now: nat)
    requires forall i: nat | i < |list| :: list[i] in timers
  {
    forall i: nat | i < |list| :: StepFits(timers[list[i]], now)
  }

  /** Halfway through the drain: timers that were due and still are have not fired, and those that
      have fired fitted. */
  ghost predicate DrainOk(list: seq<nat>, timers: Timers, list': seq<nat>, timers': Timers, now: nat)
  {
    && SameTimers(timers, timers')
    && (forall id | id in timers && id !in list :: timers'[id] == timers[id] && id !in list')
    && (forall id | id in list :: id in timers && (timers'[id] == timers[id] || StepFits(timers[id], now)))
    && (forall id | id in list' :: id in list && (timers'[id].expiry <= now ==> timers'[id] == timers[id]))
    && (forall id | id in list :: id in list' || timers'[id].count > 0)
    && (forall id | id in list && timers[id].expiry > now :: timers'[id] == timers[id] && id in list')
    && (forall id | id in list && timers[id].expiry <= now ::
          (timers'[id] == timers[id] && id in list') || (id in list' <==> timers[id].interval != 0))
  }

  lemma DrainTurn(list: seq<nat>, timers: Timers, list1: seq<nat>, timers1: Timers, list2: seq<nat>, timers2: Timers, id: nat, now: nat)
    requires DrainOk(list, timers, list1, timers1, now) && SameTimers(timers1, timers2) && id in timers1 && id in list1
    requires timers1[id].expiry <= now && StepFits(timers1[id], now) && timers2[id].count > 0
    requires (id in list2 ==> timers2[id].expiry > now) && (id in list2 <==> timers1[id].interval != 0)
    requires forall x | x in timers1 && x != id :: timers2[x] == timers1[x] && (x in list2 <==> x in list1)
    requires (forall x | x in list1 :: x in timers1) && forall x | x in list2 :: x in timers2
    ensures DrainOk(list, timers, list2, timers2, now)
  {
  }

  /** The drain loop, up to a timer that is still due after it fired.  Without one it ends, because
      a timer that is put back is not due any more. */
  method Drain(list: seq<nat>, timers: Timers, now: nat) returns (list': seq<nat>, timers': Timers, late: bool)
    requires QueueOk(list, timers, now) && now < U64
    ensures Sorted(list', timers') && SameTimers(timers, timers')
    ensures late <==> !AllFit(list, timers, now)
    ensures late ==> exists i: nat :: i < |list'| && timers'[list'[i]].expiry <= now && timers'[list'[i]].count > 0
    ensures !late ==> QueueOk(list', timers', now) && forall i: nat | i < |list'| :: timers'[list'[i]].expiry > now
    ensures !late ==> DrainOk(list, timers, list', timers', now)
  {
    list', timers', late := list, timers, false;
    while list' != [] && timers'[list'[0]].expiry <= now
      invariant QueueOk(list', timers', now) && DrainOk(list, timers, list', timers', now) && !late
      decreases |Due(list', timers', now)|
    {
      ghost var due, list1, timers1, id := Due(list', timers', now), list', timers', list'[0];
      assert id in due;
      list', timers', late := FireHead(list', timers', now);
      if late {
        NotFit(list, timers, timers1, id, now);
        return;
      }
      DrainTurn(list, timers, list1, timers1, list', timers', id, now);
    }
    DrainEnds(list, timers, list', timers', now);
  }

  lemma NotFit(list: seq<nat>, timers: Timers, timers1: Timers, id: nat, now: nat)
    requires (forall i: nat | i < |list| :: list[i] in timers) && id in list && id in timers1
    requires timers1[id] == timers[id] && !StepFits(timers1[id], now)
    ensures !AllFit(list, timers, now)
  {
  }

  lemma DrainEnds(list: seq<nat>, timers: Timers, list': seq<nat>, timers': Timers, now: nat)
    requires Sorted(list, timers) && Sorted(list', timers') && DrainOk(list, timers, list', timers', now) && QueueOk(list', timers', now)
    requires list' != [] ==> timers'[list'[0]].expiry > now
    ensures forall i: nat | i < |list'| :: timers'[list'[i]].expiry > now
    ensures AllFit(list, timers, now)
  {
    forall i: nat | i < |list|
      ensures StepFits(timers[list[i]], now)
    {
      assert list[i] !in list' ==> Parked(timers'[list[i]], now);
    }
  }
}
