/** The locks of the page cache (kernel/mm/pcache.c), step by step, for the entries of one bucket.
    Insertion links an entry into its chain under the bucket lock and into the ring under the clock
    lock; reclaim takes an entry out of the ring first and out of its chain later; eviction of an
    inode holds the bucket lock and takes an entry out of its chain first and out of the ring
    later.  Neither order keeps both locks, so operations meet in the windows between. */
module PageCacheSteps {

  /** What a thread is doing with an entry. */
  datatype Thread =
    | Idle
    | Linked(e: nat)     // insert: in the chain, ring to come
    | Victim(e: nat)     // reclaim: out of the ring, chain to come
    | Loose(e: nat)      // reclaim: out of both, release to come
    | Scan               // inode eviction: holds the bucket lock
    | Cut(e: nat)        // inode eviction: out of the chain, ring to come
    | Out(e: nat)        // inode eviction: out of both, release to come

  /** `released` counts the releases of each entry; `fault` records that an entry was taken out of
      the ring while it was not in it, whose links are NULL: the kernel stops there. */
  datatype State = State(chain: set<nat>, ring: set<nat>, locked: bool, threads: seq<Thread>,
                         used: set<nat>, released: multiset<nat>, fault: bool)

  datatype Action =
    | Link(t: nat, e: nat) | Join(t: nat)
    | Pick(t: nat, e: nat) | Unchain(t: nat) | Drop(t: nat)
    | Enter(t: nat) | Take(t: nat, e: nat) | Unring(t: nat) | Free(t: nat) | Leave(t: nat)

  predicate Init(s: State)
  {
    && s.chain == {} && s.ring == {} && !s.locked && s.used == {} && s.released == multiset{} && !s.fault
    && forall t: nat | t < |s.threads| :: s.threads[t] == Idle
  }

  predicate Enabled(s: State, a: Action)
  {
    && a.t < |s.threads| && !s.fault
    && var x := s.threads[a.t];
      match a
      case Link(_, e) => x.Idle? && !s.locked && e !in s.used
      case Join(_) => x.Linked?
      case Pick(_, e) => x.Idle? && e in s.ring
      case Unchain(_) => x.Victim? && !s.locked
      case Drop(_) => x.Loose?
      case Enter(_) => x.Idle? && !s.locked
      case Take(_, e) => x.Scan? && e in s.chain
      case Unring(_) => x.Cut?
      case Free(_) => x.Out?
      case Leave(_) => x.Scan?
  }

  function Apply(s: State, a: Action): State
    requires Enabled(s, a)
  {
    var x := s.threads[a.t];
    var go := (y: Thread) => s.threads[a.t := y];
    match a
    case Link(_, e) => s.(chain := s.chain + {e}, used := s.used + {e}, threads := go(Linked(e)))
    case Join(_) => s.(ring := s.ring + {x.e}, threads := go(Idle))
    case Pick(_, e) => s.(ring := s.ring - {e}, threads := go(Victim(e)))
    case Unchain(_) => s.(chain := s.chain - {x.e}, threads := go(Loose(x.e)))
    case Drop(_) => s.(released := s.released + multiset{x.e}, threads := go(Idle))
    case Enter(_) => s.(locked := true, threads := go(Scan))
    case Take(_, e) => s.(chain := s.chain - {e}, threads := go(Cut(e)))
    case Unring(_) => s.(ring := s.ring - {x.e}, fault := x.e !in s.ring, threads := go(Out(x.e)))
    case Free(_) => s.(released := s.released + multiset{x.e}, threads := go(Scan))
    case Leave(_) => s.(locked := false, threads := go(Idle))
  }

  // ---------------------------------------------------------------- every run

  /** The windows in which an entry is in its chain, or was a moment ago, and not in the ring. */
  predicate OffRing(x: Thread, e: nat)
  {
    x == Linked(e) || x == Victim(e)
  }

  ghost predicate InWindow(threads: seq<Thread>, e: nat)
  {
    exists u: nat :: u < |threads| && OffRing(threads[u], e)
  }

  predicate HoldsLock(x: Thread)
  {
    x.Scan? || x.Cut? || x.Out?
  }

  /** The bucket lock is taken exactly while an inode eviction holds it, one at a time. */
  ghost predicate LockOk(locked: bool, threads: seq<Thread>)
  {
    && (forall t: nat | t < |threads| && HoldsLock(threads[t]) :: locked)
    && (forall t: nat, u: nat | t < |threads| && u < |threads| && HoldsLock(threads[t]) && HoldsLock(threads[u]) :: t == u)
    && (locked ==> exists t: nat :: t < |threads| && HoldsLock(threads[t]))
  }

  /** An entry that is in the chain, or in the hands of an inode eviction that has cut it, is in the
      ring or in the window of an insertion or a reclaim. */
  ghost predicate Found(chain: set<nat>, ring: set<nat>, threads: seq<Thread>)
  {
    && (forall e | e in chain :: e in ring || InWindow(threads, e))
    && (forall t: nat | t < |threads| && threads[t].Cut? ::
          threads[t].e !in chain && (threads[t].e in ring || InWindow(threads, threads[t].e)))
  }

  /** Only one of those has it, and then it is not in the ring. */
  ghost predicate WindowsOk(ring: set<nat>, threads: seq<Thread>, used: set<nat>)
  {
    && (forall u: nat, e | u < |threads| && OffRing(threads[u], e) :: e !in ring && e in used)
    && (forall u: nat, v: nat, e | u < |threads| && v < |threads| && OffRing(threads[u], e) && OffRing(threads[v], e) :: u == v)
  }

  ghost predicate Inv(s: State)
  {
    && LockOk(s.locked, s.threads) && Found(s.chain, s.ring, s.threads) && WindowsOk(s.ring, s.threads, s.used)
    && s.chain <= s.used && s.ring <= s.used && forall t: nat | t < |s.threads| && s.threads[t].Cut? :: s.threads[t].e in s.used
  }

  lemma WindowMoves(threads: seq<Thread>, t: nat, y: Thread, e: nat)
    requires t < |threads|
    ensures OffRing(y, e) ==> InWindow(threads[t := y], e)
    ensures InWindow(threads, e) && !OffRing(threads[t], e) ==> InWindow(threads[t := y], e)
  {
    if OffRing(y, e) { assert OffRing(threads[t := y][t], e); }
    if u: nat :| u < |threads| && OffRing(threads[u], e) && u != t { assert OffRing(threads[t := y][u], e); }
  }

  lemma StepKeepsFound(s: State, a: Action)
    requires Inv(s) && Enabled(s, a)
    ensures Found(Apply(s, a).chain, Apply(s, a).ring, Apply(s, a).threads)
  {
    var s' := Apply(s, a);
    assert s'.threads == s.threads[a.t := s'.threads[a.t]];
    forall e
      ensures OffRing(s'.threads[a.t], e) ==> InWindow(s'.threads, e)
      ensures InWindow(s.threads, e) && !OffRing(s.threads[a.t], e) ==> InWindow(s'.threads, e)
    {
      WindowMoves(s.threads, a.t, s'.threads[a.t], e);
    }
  }

  lemma StepKeepsWindows(s: State, a: Action)
    requires Inv(s) && Enabled(s, a)
    ensures WindowsOk(Apply(s, a).ring, Apply(s, a).threads, Apply(s, a).used)
  {
    var s', x := Apply(s, a), s.threads[a.t];
    assert s'.threads == s.threads[a.t := s'.threads[a.t]];
    assert forall e | OffRing(s'.threads[a.t], e) :: e !in s'.ring && e in s'.used;
    assert forall u: nat, e | u < |s.threads| && u != a.t && OffRing(s.threads[u], e) && OffRing(s'.threads[a.t], e) :: false;
  }

  lemma StepKeepsLock(s: State, a: Action)
    requires Inv(s) && Enabled(s, a)
    ensures LockOk(Apply(s, a).locked, Apply(s, a).threads)
  {
    LockKept(s, a);
  }

  lemma LockKept(s: State, a: Action)
    requires LockOk(s.locked, s.threads) && Enabled(s, a)
    ensures LockOk(Apply(s, a).locked, Apply(s, a).threads)
  {
    var threads' := Apply(s, a).threads;
    if t: nat :| t < |s.threads| && HoldsLock(s.threads[t]) {
      assert HoldsLock(threads'[t]) || a.Leave?;
    }
    assert a.Enter? ==> HoldsLock(threads'[a.t]);
  }

  lemma StepKeepsInv(s: State, a: Action)
    requires Inv(s) && Enabled(s, a)
    ensures Inv(Apply(s, a))
  {
    StepKeepsFound(s, a);
    StepKeepsWindows(s, a);
    StepKeepsLock(s, a);
  }

  lemma InitInv(s: State)
    requires Init(s)
    ensures Inv(s)
  {
    assert forall u: nat, e | u < |s.threads| :: !OffRing(s.threads[u], e);
  }

  predicate Next(r: State, a: Action, s: State)
  {
    Enabled(r, a) && s == Apply(r, a)
  }

  ghost predicate Reachable(s: State, k: nat)
    decreases k
  {
    if k == 0 then Init(s) else exists r, a :: Reachable(r, k - 1) && Next(r, a, s)
  }

  lemma {:induction false} ReachableInv(s: State, k: nat)
    requires Reachable(s, k)
    ensures Inv(s)
    decreases k
  {
    if k == 0 {
      InitInv(s);
    } else {
      var r, a :| Reachable(r, k - 1) && Next(r, a, s);
      ReachableInv(r, k - 1);
      StepKeepsInv(r, a);
    }
  }

  /** In every reachable state, an inode eviction takes an entry out of the ring that is not in it if
      and only if an insertion or a reclaim has that entry in its window. */
  lemma UnringFaultsIff(s: State, k: nat, t: nat)
    requires Reachable(s, k) && Enabled(s, Unring(t))
    ensures s.threads[t].e !in s.ring <==> InWindow(s.threads, s.threads[t].e)
  {
    ReachableInv(s, k);
  }

  /** The thread that will put the entry into the ring, or has taken it out of there. */
  predicate Holds(x: Thread, e: nat)
  {
    x == Linked(e) || x == Victim(e) || x == Loose(e) || x == Out(e)
  }

  ghost predicate HeldOk(s: State)
  {
    forall u: nat, e | u < |s.threads| && Holds(s.threads[u], e) :: e !in s.ring && s.released[e] == 0 && e in s.used
  }

  ghost predicate HeldOnce(threads: seq<Thread>)
  {
    forall u: nat, v: nat, e | u < |threads| && v < |threads| && Holds(threads[u], e) && Holds(threads[v], e) :: u == v
  }

  ghost predicate RingOk(s: State)
  {
    && (forall e | e in s.ring :: s.released[e] == 0 && e in s.used)
    && (forall e :: s.released[e] <= 1 && (s.released[e] > 0 ==> e in s.used))
  }

  ghost predicate Held(threads: seq<Thread>, e: nat)
  {
    exists u: nat :: u < |threads| && Holds(threads[u], e)
  }

  ghost predicate NoneLost(s: State)
  {
    forall e | e in s.used :: e in s.ring || Held(s.threads, e) || s.released[e] == 1
  }

  /** An entry that was ever linked is in one place: with a thread that holds it, in the ring, or
      released. */
  ghost predicate OnePlace(s: State)
  {
    HeldOk(s) && HeldOnce(s.threads) && RingOk(s) && NoneLost(s)
  }

  lemma HeldMoves(threads: seq<Thread>, t: nat, y: Thread, e: nat)
    requires t < |threads|
    ensures Holds(y, e) ==> Held(threads[t := y], e)
    ensures Held(threads, e) && !Holds(threads[t], e) ==> Held(threads[t := y], e)
  {
    if Holds(y, e) { assert Holds(threads[t := y][t], e); }
    if u: nat :| u < |threads| && Holds(threads[u], e) && u != t { assert Holds(threads[t := y][u], e); }
  }

  lemma StepLosesNone(s: State, a: Action)
    requires OnePlace(s) && Enabled(s, a)
    ensures NoneLost(Apply(s, a))
  {
    var s', x := Apply(s, a), s.threads[a.t];
    assert s'.threads == s.threads[a.t := s'.threads[a.t]];
    if a.Drop? || a.Free? { assert Holds(x, x.e); }
    forall e | e in s'.used
      ensures e in s'.ring || Held(s'.threads, e) || s'.released[e] == 1
    {
      HeldMoves(s.threads, a.t, s'.threads[a.t], e);
      assert e in s.used ==> e in s.ring || Held(s.threads, e) || s.released[e] == 1;
    }
  }

  lemma StepKeepsOnePlace(s: State, a: Action)
    requires OnePlace(s) && Enabled(s, a)
    ensures Apply(s, a).fault || OnePlace(Apply(s, a))
    ensures Apply(s, a).fault ==> Apply(s, a).released == s.released
  {
    if !Apply(s, a).fault {
      StepKeepsHeld(s, a);
      StepKeepsRing(s, a);
      StepLosesNone(s, a);
    }
  }

  lemma StepKeepsHeld(s: State, a: Action)
    requires OnePlace(s) && Enabled(s, a) && !Apply(s, a).fault
    ensures HeldOk(Apply(s, a)) && HeldOnce(Apply(s, a).threads)
  {
    var s' := Apply(s, a);
    forall u: nat, e | u < |s.threads| && u != a.t && Holds(s.threads[u], e)
      ensures !Holds(s'.threads[a.t], e) && e !in s'.ring && s'.released[e] == 0
    {
      OtherHolder(s, a, u, e);
    }
    assert forall e | Holds(s'.threads[a.t], e) :: e !in s'.ring && s'.released[e] == 0 && e in s'.used;
    assert forall u: nat | u < |s.threads| && u != a.t :: s'.threads[u] == s.threads[u];
  }

  lemma OtherHolder(s: State, a: Action, u: nat, e: nat)
    requires OnePlace(s) && Enabled(s, a) && !Apply(s, a).fault && u < |s.threads| && u != a.t && Holds(s.threads[u], e)
    ensures var s' := Apply(s, a); !Holds(s'.threads[a.t], e) && e !in s'.ring && s'.released[e] == 0
  {
    assert !Holds(s.threads[a.t], e);
  }

  lemma StepKeepsRing(s: State, a: Action)
    requires OnePlace(s) && Enabled(s, a)
    ensures RingOk(Apply(s, a))
  {
    var x := s.threads[a.t];
    if a.Join? || a.Drop? || a.Free? { assert Holds(x, x.e); }
  }

  /** In every run, up to and including a fault, no entry is released twice; before a fault, an entry
      that was linked is in the ring, with one thread, or released once. */
  lemma {:induction false} ReleasedOnce(s: State, k: nat)
    requires Reachable(s, k)
    ensures forall e :: s.released[e] <= 1
    ensures !s.fault ==> OnePlace(s)
    decreases k
  {
    if k > 0 {
      var r, a :| Reachable(r, k - 1) && Next(r, a, s);
      ReleasedOnce(r, k - 1);
      StepKeepsOnePlace(r, a);
    } else {
      assert forall u: nat, e | u < |s.threads| :: !Holds(s.threads[u], e);
    }
  }

  // ---------------------------------------------------------------- runs without overlap

  predicate WorksOn(x: Thread, e: nat)
  {
    !x.Idle? && !x.Scan? && x.e == e
  }

  /** No thread starts on an entry that another thread works on. */
  predicate Apart(s: State, a: Action)
  {
    a.Pick? || a.Take? ==> forall u: nat | u < |s.threads| :: !WorksOn(s.threads[u], a.e)
  }

  /** Where an entry is, by the thread that works on it. */
  ghost predicate EntryOk(chain: set<nat>, ring: set<nat>, released: multiset<nat>, x: Thread)
  {
    match x
    case Idle => true
    case Scan => true
    case Linked(e) => e in chain && e !in ring && released[e] == 0
    case Victim(e) => e in chain && e !in ring && released[e] == 0
    case Loose(e) => e !in chain && e !in ring && released[e] == 0
    case Cut(e) => e !in chain && e in ring && released[e] == 0
    case Out(e) => e !in chain && e !in ring && released[e] == 0
  }

  ghost predicate EntriesOk(s: State)
  {
    forall t: nat | t < |s.threads| :: EntryOk(s.chain, s.ring, s.released, s.threads[t])
  }

  /** No two threads work on one entry. */
  ghost predicate Alone(threads: seq<Thread>, used: set<nat>)
  {
    && (forall t: nat, e | t < |threads| && WorksOn(threads[t], e) :: e in used)
    && (forall t: nat, u: nat, e | t < |threads| && u < |threads| && WorksOn(threads[t], e) && WorksOn(threads[u], e) :: t == u)
  }

  ghost predicate Busy(threads: seq<Thread>, e: nat)
  {
    exists u: nat :: u < |threads| && WorksOn(threads[u], e)
  }

  /** An entry that nobody works on is in both the chain and the ring or in neither. */
  ghost predicate Matched(chain: set<nat>, ring: set<nat>, threads: seq<Thread>)
  {
    forall e | (e in chain) != (e in ring) :: Busy(threads, e)
  }

  ghost predicate ReleasedOk(s: State)
  {
    && (forall e | e !in s.used || e in s.chain || e in s.ring :: s.released[e] == 0)
    && (forall e :: s.released[e] <= 1)
  }

  ghost predicate Tidy(s: State)
  {
    && !s.fault && s.chain <= s.used && s.ring <= s.used && LockOk(s.locked, s.threads)
    && EntriesOk(s) && Alone(s.threads, s.used) && Matched(s.chain, s.ring, s.threads) && ReleasedOk(s)
  }

  lemma BusyMoves(threads: seq<Thread>, t: nat, y: Thread, e: nat)
    requires t < |threads|
    ensures WorksOn(y, e) ==> Busy(threads[t := y], e)
    ensures Busy(threads, e) && !WorksOn(threads[t], e) ==> Busy(threads[t := y], e)
  {
    if WorksOn(y, e) { assert WorksOn(threads[t := y][t], e); }
    if u: nat :| u < |threads| && WorksOn(threads[u], e) && u != t { assert WorksOn(threads[t := y][u], e); }
  }

  lemma ApartKeepsMatched(s: State, a: Action)
    requires Tidy(s) && Enabled(s, a) && Apart(s, a)
    ensures Matched(Apply(s, a).chain, Apply(s, a).ring, Apply(s, a).threads)
  {
    var s' := Apply(s, a);
    assert s'.threads == s.threads[a.t := s'.threads[a.t]];
    assert EntryOk(s.chain, s.ring, s.released, s.threads[a.t]);
    forall e
      ensures WorksOn(s'.threads[a.t], e) ==> Busy(s'.threads, e)
      ensures Busy(s.threads, e) && !WorksOn(s.threads[a.t], e) ==> Busy(s'.threads, e)
    {
      BusyMoves(s.threads, a.t, s'.threads[a.t], e);
    }
  }

  lemma ApartKeepsAlone(s: State, a: Action)
    requires Tidy(s) && Enabled(s, a) && Apart(s, a)
    ensures Alone(Apply(s, a).threads, Apply(s, a).used)
  {
    var s' := Apply(s, a);
    assert s'.threads == s.threads[a.t := s'.threads[a.t]];
    forall u: nat, e | u < |s.threads| && u != a.t && WorksOn(s'.threads[a.t], e)
      ensures !WorksOn(s.threads[u], e)
    {
      assert WorksOn(s.threads[a.t], e) || (a.Link? && e !in s.used) || ((a.Pick? || a.Take?) && a.e == e);
    }
  }

  lemma ApartKeepsEntries(s: State, a: Action)
    requires Tidy(s) && Enabled(s, a) && Apart(s, a)
    ensures EntriesOk(Apply(s, a)) && !Apply(s, a).fault
  {
    var s', x := Apply(s, a), s.threads[a.t];
    assert EntryOk(s.chain, s.ring, s.released, x);
    if a.Pick? || a.Take? { assert !Busy(s.threads, a.e); }
    forall u: nat | u < |s.threads|
      ensures EntryOk(s'.chain, s'.ring, s'.released, s'.threads[u])
    {
      assert EntryOk(s.chain, s.ring, s.released, s.threads[u]);
      if u != a.t && !s.threads[u].Idle? && !s.threads[u].Scan? { assert WorksOn(s.threads[u], s.threads[u].e) && !WorksOn(x, s.threads[u].e); }
    }
  }

  lemma ApartStepStaysTidy(s: State, a: Action)
    requires Tidy(s) && Enabled(s, a) && Apart(s, a)
    ensures Tidy(Apply(s, a))
  {
    ApartKeepsMatched(s, a);
    ApartKeepsAlone(s, a);
    ApartKeepsEntries(s, a);
    ApartKeepsRest(s, a);
  }

  lemma ApartKeepsRest(s: State, a: Action)
    requires Tidy(s) && Enabled(s, a) && Apart(s, a)
    ensures var t := Apply(s, a); ReleasedOk(t) && LockOk(t.locked, t.threads) && t.chain <= t.used && t.ring <= t.used
  {
    assert EntryOk(s.chain, s.ring, s.released, s.threads[a.t]);
    LockKept(s, a);
  }

  predicate ApartNext(r: State, a: Action, s: State)
  {
    Apart(r, a) && Next(r, a, s)
  }

  ghost predicate ApartRun(s: State, k: nat)
    decreases k
  {
    if k == 0 then Init(s) else exists r, a :: ApartRun(r, k - 1) && ApartNext(r, a, s)
  }

  lemma InitIsTidy(s: State)
    requires Init(s)
    ensures Tidy(s)
  {
    assert forall u: nat, e | u < |s.threads| :: !WorksOn(s.threads[u], e);
  }

  /** In every run in which no thread starts on an entry that another works on, nothing is taken out
      of the ring that is not in it, and every entry is released at most once. */
  lemma {:induction false} ApartRunsAreSafe(s: State, k: nat)
    requires ApartRun(s, k)
    ensures Tidy(s)
    decreases k
  {
    if k == 0 {
      InitIsTidy(s);
    } else {
      var r, a :| ApartRun(r, k - 1) && ApartNext(r, a, s);
      ApartRunsAreSafe(r, k - 1);
      ApartStepStaysTidy(r, a);
    }
  }

  // ---------------------------------------------------------------- the windows are real

  /** `P` holds wherever a run that starts inside `P` can go. */
  ghost predicate Closed(P: State -> bool)
  {
    forall r, a, s :: P(r) && Next(r, a, s) ==> P(s)
  }

  lemma Go(P: State -> bool, r: State, a: Action) returns (s: State)
    requires Closed(P) && P(r) && Enabled(r, a)
    ensures P(s) && s == Apply(r, a)
  {
    s := Apply(r, a);
    assert Next(r, a, s);
  }

  // ---------------------------------------------------------------- operations that run through

  /** An insertion that nobody meets. */
  lemma Inserts(P: State -> bool, r: State, t: nat, e: nat) returns (s: State)
    requires Closed(P) && P(r) && !r.fault && !r.locked && t < |r.threads| && r.threads[t] == Idle && e !in r.used
    ensures P(s) && s == r.(chain := r.chain + {e}, ring := r.ring + {e}, used := r.used + {e})
  {
    s := Go(P, r, Link(t, e));
    s := Go(P, s, Join(t));
    assert s.threads == r.threads;
  }

  /** A reclaim that nobody meets. */
  lemma Reclaims(P: State -> bool, r: State, t: nat, e: nat) returns (s: State)
    requires Closed(P) && P(r) && !r.fault && !r.locked && t < |r.threads| && r.threads[t] == Idle && e in r.ring
    ensures P(s) && s == r.(chain := r.chain - {e}, ring := r.ring - {e}, released := r.released + multiset{e})
  {
    s := Go(P, r, Pick(t, e));
    s := Go(P, s, Unchain(t));
    s := Go(P, s, Drop(t));
    assert s.threads == r.threads;
  }

  /** An inode eviction of one entry that nobody meets: the same as a reclaim. */
  lemma Evicts(P: State -> bool, r: State, t: nat, e: nat) returns (s: State)
    requires Closed(P) && P(r) && !r.fault && !r.locked && t < |r.threads| && r.threads[t] == Idle && e in r.chain && e in r.ring
    ensures P(s) && s == r.(chain := r.chain - {e}, ring := r.ring - {e}, released := r.released + multiset{e})
  {
    s := Go(P, r, Enter(t));
    s := Go(P, s, Take(t, e));
    s := Go(P, s, Unring(t));
    s := Go(P, s, Free(t));
    s := Go(P, s, Leave(t));
    assert s.threads == r.threads;
  }

  /** The holder of the bucket lock needs nobody to give it back. */
  lemma LetsGo(P: State -> bool, r: State, t: nat) returns (s: State)
    requires Closed(P) && P(r) && !r.fault && t < |r.threads| && HoldsLock(r.threads[t])
    ensures P(s) && (s.fault || (!s.locked && s.threads == r.threads[t := Idle]))
  {
    s := r;
    if s.threads[t].Cut? {
      s := Go(P, s, Unring(t));
      if s.fault { return; }
    }
    if s.threads[t].Out? { s := Go(P, s, Free(t)); }
    s := Go(P, s, Leave(t));
  }

  /** Every operation under way can be brought to its end, unless the fault comes first: whoever it
      waits for can let go. */
  lemma ComesToEnd(P: State -> bool, r: State, t: nat) returns (s: State)
    requires Closed(P) && P(r) && !r.fault && LockOk(r.locked, r.threads) && t < |r.threads|
    ensures P(s) && (s.fault || (|s.threads| == |r.threads| && s.threads[t] == Idle))
  {
    s := r;
    var x := r.threads[t];
    if HoldsLock(x) {
      s := LetsGo(P, r, t);
    } else if x.Linked? {
      s := Go(P, r, Join(t));
    } else if !x.Idle? {
      if x.Victim? {
        if r.locked {
          var u: nat :| u < |r.threads| && HoldsLock(r.threads[u]);
          s := LetsGo(P, r, u);
          if s.fault { return; }
        }
        s := Go(P, s, Unchain(t));
      }
      s := Go(P, s, Drop(t));
    }
  }

  ghost function Reaches(): State -> bool
  {
    s => exists k: nat :: Reachable(s, k)
  }

  lemma ReachesIsClosed()
    ensures Closed(Reaches())
  {
    forall r, a, s | Reaches()(r) && Next(r, a, s)
      ensures Reaches()(s)
    {
      var k: nat :| Reachable(r, k);
      assert Reachable(s, k + 1);
    }
  }

  /** Two threads, and nothing done yet. */
  const Start := State({}, {}, false, [Idle, Idle], {}, multiset{}, false)

  lemma StartIsReached()
    ensures Reaches()(Start)
  {
    assert Reachable(Start, 0);
  }

  /** An inode eviction by thread 1 finds entry 7 in the chain, and not in the ring. */
  lemma Sweep(P: State -> bool, r: State, x: Thread) returns (s: State)
    requires Closed(P) && P(r) && r == State({7}, {}, false, [x, Idle], {7}, multiset{}, false)
    ensures P(s) && s == State({}, {}, true, [x, Out(7)], {7}, multiset{}, true)
  {
    s := Go(P, r, Enter(1));
    s := Go(P, s, Take(1, 7));
    s := Go(P, s, Unring(1));
    assert s.threads == [x, Out(7)];
  }

  /** Reclaim has taken entry 7 out of the ring and waits for the bucket when an inode eviction comes
      by, which takes it out of the ring again: the links it follows are NULL. */
  lemma ReclaimMeetsEviction() returns (s: State, k: nat)
    ensures Reachable(s, k) && s.fault && s.threads == [Victim(7), Out(7)]
  {
    var P := Reaches();
    ReachesIsClosed();
    StartIsReached();
    s := Go(P, Start, Link(0, 7));
    s := Go(P, s, Join(0));
    s := Go(P, s, Pick(0, 7));
    assert s == State({7}, {}, false, [Victim(7), Idle], {7}, multiset{}, false);
    s := Sweep(P, s, Victim(7));
    k :| Reachable(s, k);
  }

  /** Insertion has not come to the ring when an inode eviction comes by, which takes the entry out of
      a ring it has not joined. */
  lemma InsertionMeetsEviction() returns (s: State, k: nat)
    ensures Reachable(s, k) && s.fault && s.threads == [Linked(7), Out(7)]
  {
    var P := Reaches();
    ReachesIsClosed();
    StartIsReached();
    s := Go(P, Start, Link(0, 7));
    assert s == State({7}, {}, false, [Linked(7), Idle], {7}, multiset{}, false);
    s := Sweep(P, s, Linked(7));
    k :| Reachable(s, k);
  }
}
