/** The pin/poison protocol of the ext2 block cache, as a state machine over every
    interleaving of lock-free readers, writers and the unlocked invalidation.

    The model is one set of ways.  A reader pins a way, checks its tag and unpins.  A fill
    first walks the ways and wipes every tag that names its block (a load and a later store,
    without a lock); then it picks a way, tries its lock, checks the pin count, poisons the
    tag, checks the pin count again, and either copies byte by byte and publishes, or
    restores the old tag.  Which way a reader visits and a fill picks is left open, so every
    lookup order and every victim choice is included. */
module BlockCachePins {

  datatype Tag = Invalid | Blk(n: nat)
  datatype Holder = Free | By(thread: nat)
  type Image = seq<int>

  datatype Way = Way(lock: Holder, tag: Tag, pin: nat, data: Image)

  datatype Thread =
    | Idle
    | RPinned(w: nat, b: nat)                          // pin++ done
    | RMiss(w: nat, b: nat)                            // tag did not match; pin-- to come
    | RHold(w: nat, b: nat, seen: Image)               // tag matched; `seen` is what was there
    | FWalk(w: nat, b: nat, src: Image)                // ways below w have been looked at
    | FSeen(w: nat, b: nat, src: Image)                // way w named the block; store to come
    | WLocked(w: nat, b: nat, src: Image)
    | WUnpinned(w: nat, b: nat, src: Image)            // first pin check passed
    | WSaved(w: nat, b: nat, src: Image, was: Tag)
    | WPoisoned(w: nat, b: nat, src: Image, was: Tag)
    | WRestore(w: nat, was: Tag)                       // lost the race
    | WCopy(w: nat, b: nat, src: Image, k: nat)        // k bytes copied
    | WUnlock(w: nat)

  datatype State = State(size: nat, ways: seq<Way>, threads: seq<Thread>, given: set<(nat, Image)>)

  /** Ways may hold anything before their first fill, but no tag says so. */
  predicate Init(s: State)
  {
    && (forall w: nat | w < |s.ways| ::
          s.ways[w].lock == Free && s.ways[w].tag == Invalid && s.ways[w].pin == 0 && |s.ways[w].data| == s.size)
    && (forall t: nat | t < |s.threads| :: s.threads[t] == Idle)
    && s.given == {}
  }

  // ---------------------------------------------------------------- steps

  datatype Action =
    | Pin(t: nat, w: nat, b: nat) | Check(t: nat) | Unpin(t: nat)
    | Begin(t: nat, b: nat, src: Image) | Look(t: nat) | Wipe(t: nat) | Pick(t: nat, w: nat)
    | PinCheck(t: nat) | Save(t: nat) | Poison(t: nat)
    | Recheck(t: nat) | Restore(t: nat) | CopyByte(t: nat) | Publish(t: nat) | Unlock(t: nat)

  predicate Enabled(s: State, a: Action)
  {
    && a.t < |s.threads|
    && var x := s.threads[a.t];
      match a
      case Pin(_, w, b) => x.Idle? && w < |s.ways|
      case Begin(_, b, src) => x.Idle? && |src| == s.size
      case Look(_) => x.FWalk? && x.w < |s.ways|
      case Wipe(_) => x.FSeen? && x.w < |s.ways|
      case Pick(_, w) => x.FWalk? && x.w == |s.ways| && w < |s.ways|
      case Check(_) => x.RPinned? && x.w < |s.ways|
      case Unpin(_) => (x.RMiss? || x.RHold?) && x.w < |s.ways| && s.ways[x.w].pin > 0
      case PinCheck(_) => x.WLocked? && x.w < |s.ways|
      case Save(_) => x.WUnpinned? && x.w < |s.ways|
      case Poison(_) => x.WSaved? && x.w < |s.ways|
      case Recheck(_) => x.WPoisoned? && x.w < |s.ways|
      case Restore(_) => x.WRestore? && x.w < |s.ways|
      case CopyByte(_) => x.WCopy? && x.w < |s.ways| && x.k < |x.src| && x.k < |s.ways[x.w].data|
      case Publish(_) => x.WCopy? && x.w < |s.ways| && x.k == |x.src|
      case Unlock(_) => x.WUnlock? && x.w < |s.ways|
  }

  function Put(s: State, t: nat, x: Thread): State
    requires t < |s.threads|
  {
    s.(threads := s.threads[t := x])
  }

  function PutWay(s: State, t: nat, x: Thread, w: nat, y: Way): State
    requires t < |s.threads| && w < |s.ways|
  {
    s.(threads := s.threads[t := x], ways := s.ways[w := y])
  }

  function Apply(s: State, a: Action): State
    requires Enabled(s, a)
  {
    var t, x := a.t, s.threads[a.t];
    match a
    case Pin(_, w, b) => PutWay(s, t, RPinned(w, b), w, s.ways[w].(pin := s.ways[w].pin + 1))
    case Check(_) =>
      if s.ways[x.w].tag == Blk(x.b) then Put(s, t, RHold(x.w, x.b, s.ways[x.w].data)) else Put(s, t, RMiss(x.w, x.b))
    case Unpin(_) => PutWay(s, t, Idle, x.w, s.ways[x.w].(pin := s.ways[x.w].pin - 1))
    case Begin(_, b, src) => Put(s.(given := s.given + {(b, src)}), t, FWalk(0, b, src))
    case Look(_) =>
      if s.ways[x.w].tag == Blk(x.b) then Put(s, t, FSeen(x.w, x.b, x.src)) else Put(s, t, FWalk(x.w + 1, x.b, x.src))
    case Wipe(_) => PutWay(s, t, FWalk(x.w + 1, x.b, x.src), x.w, s.ways[x.w].(tag := Invalid))
    case Pick(_, w) =>
      if s.ways[w].lock == Free then PutWay(s, t, WLocked(w, x.b, x.src), w, s.ways[w].(lock := By(t))) else Put(s, t, Idle)
    case PinCheck(_) => Put(s, t, if s.ways[x.w].pin != 0 then WUnlock(x.w) else WUnpinned(x.w, x.b, x.src))
    case Save(_) => Put(s, t, WSaved(x.w, x.b, x.src, s.ways[x.w].tag))
    case Poison(_) => PutWay(s, t, WPoisoned(x.w, x.b, x.src, x.was), x.w, s.ways[x.w].(tag := Invalid))
    case Recheck(_) => Put(s, t, if s.ways[x.w].pin != 0 then WRestore(x.w, x.was) else WCopy(x.w, x.b, x.src, 0))
    case Restore(_) => PutWay(s, t, WUnlock(x.w), x.w, s.ways[x.w].(tag := x.was))
    case CopyByte(_) =>
      PutWay(s, t, WCopy(x.w, x.b, x.src, x.k + 1), x.w, s.ways[x.w].(data := s.ways[x.w].data[x.k := x.src[x.k]]))
    case Publish(_) => PutWay(s, t, WUnlock(x.w), x.w, s.ways[x.w].(tag := Blk(x.b)))
    case Unlock(_) => PutWay(s, t, Idle, x.w, s.ways[x.w].(lock := Free))
  }

  // ---------------------------------------------------------------- invariant

  predicate Pins(x: Thread, w: nat)
  {
    (x.RPinned? || x.RMiss? || x.RHold?) && x.w == w
  }

  predicate Writes(x: Thread)
  {
    x.WLocked? || x.WUnpinned? || x.WSaved? || x.WPoisoned? || x.WRestore? || x.WCopy? || x.WUnlock?
  }

  function Pinners(threads: seq<Thread>, w: nat): set<nat>
  {
    set t | 0 <= t < |threads| && Pins(threads[t], w)
  }

  /** The pin count of a way is the number of threads that pin it. */
  ghost predicate PinsOk(s: State)
  {
    forall w: nat | w < |s.ways| :: s.ways[w].pin == |Pinners(s.threads, w)|
  }

  predicate InRange(s: State, x: Thread)
  {
    x.Idle? || (x.FWalk? && x.w <= |s.ways|) || x.w < |s.ways|
  }

  /** The writer of a way holds its lock; every thread works on an existing way. */
  ghost predicate LocksOk(s: State)
  {
    forall t: nat | t < |s.threads| ::
      && InRange(s, s.threads[t])
      && (Writes(s.threads[t]) ==> s.ways[s.threads[t].w].lock == By(t))
  }

  /** A tag tells the truth: the way holds a whole image that was given for that block. */
  ghost predicate TagsOk(s: State)
  {
    forall w: nat | w < |s.ways| ::
      && |s.ways[w].data| == s.size
      && (s.ways[w].tag.Blk? ==> (s.ways[w].tag.n, s.ways[w].data) in s.given)
  }

  ghost predicate ThreadOk(s: State, x: Thread)
    requires InRange(s, x)
  {
    match x
    case FWalk(w, b, src) => (b, src) in s.given && |src| == s.size
    case FSeen(w, b, src) => (b, src) in s.given && |src| == s.size
    case RHold(w, b, seen) => s.ways[w].data == seen && (b, seen) in s.given
    case WLocked(w, b, src) => (b, src) in s.given && |src| == s.size
    case WUnpinned(w, b, src) => (b, src) in s.given && |src| == s.size
    case WSaved(w, b, src, was) =>
      (b, src) in s.given && |src| == s.size && (was.Blk? ==> (was.n, s.ways[w].data) in s.given)
    case WPoisoned(w, b, src, was) =>
      && (b, src) in s.given && |src| == s.size && (was.Blk? ==> (was.n, s.ways[w].data) in s.given)
      && s.ways[w].tag == Invalid
    case WRestore(w, was) => s.ways[w].tag == Invalid && (was.Blk? ==> (was.n, s.ways[w].data) in s.given)
    case WCopy(w, b, src, k) =>
      && (b, src) in s.given && |src| == s.size && k <= s.size && |s.ways[w].data| == s.size
      && s.ways[w].tag == Invalid && s.ways[w].data[..k] == src[..k]
    case _ => true
  }

  ghost predicate ThreadsOk(s: State)
    requires LocksOk(s)
  {
    forall t: nat | t < |s.threads| :: ThreadOk(s, s.threads[t])
  }

  /** No way is being overwritten while a verified reader holds it. */
  ghost predicate Exclusive(s: State)
  {
    forall t: nat, u: nat | t < |s.threads| && u < |s.threads| ::
      s.threads[t].WCopy? && s.threads[u].RHold? ==> s.threads[t].w != s.threads[u].w
  }

  ghost predicate Inv(s: State)
  {
    PinsOk(s) && LocksOk(s) && TagsOk(s) && ThreadsOk(s) && Exclusive(s)
  }

  lemma InitInv(s: State)
    requires Init(s)
    ensures Inv(s)
  {
    forall w: nat | w < |s.ways|
      ensures Pinners(s.threads, w) == {}
    {
    }
  }

  lemma PinnersChange(threads: seq<Thread>, t: nat, x: Thread, w: nat)
    requires t < |threads|
    ensures var a, b := Pinners(threads, w), Pinners(threads[t := x], w);
            |b| == |a| - (if Pins(threads[t], w) then 1 else 0) + (if Pins(x, w) then 1 else 0)
  {
    var a, b := Pinners(threads, w), Pinners(threads[t := x], w);
    var rest := a - {t};
    assert b - {t} == rest;
    assert Pins(threads[t], w) ==> a == rest + {t};
    assert !Pins(threads[t], w) ==> a == rest;
    assert Pins(x, w) ==> b == rest + {t};
    assert !Pins(x, w) ==> b == rest;
  }

  lemma StepPins(s: State, a: Action)
    requires Inv(s) && Enabled(s, a)
    ensures PinsOk(Apply(s, a))
  {
    var s' := Apply(s, a);
    forall w: nat | w < |s'.ways|
      ensures s'.ways[w].pin == |Pinners(s'.threads, w)|
    {
      PinnersChange(s.threads, a.t, s'.threads[a.t], w);
      assert s'.threads == s.threads[a.t := s'.threads[a.t]];
    }
  }

  lemma NoPinners(s: State, w: nat, t: nat)
    requires PinsOk(s) && w < |s.ways| && s.ways[w].pin == 0 && t < |s.threads|
    ensures !Pins(s.threads[t], w)
  {
    assert t !in Pinners(s.threads, w);
  }

  ghost predicate Rest(s: State)
  {
    LocksOk(s) && TagsOk(s) && ThreadsOk(s) && Exclusive(s)
  }

  lemma StepPin(s: State, a: Action)
    requires Inv(s) && Enabled(s, a) && a.Pin?
    ensures Rest(Apply(s, a))
  {
  }

  lemma StepCheck(s: State, a: Action)
    requires Inv(s) && Enabled(s, a) && a.Check?
    ensures Rest(Apply(s, a))
  {
  }

  lemma StepUnpin(s: State, a: Action)
    requires Inv(s) && Enabled(s, a) && a.Unpin?
    ensures Rest(Apply(s, a))
  {
  }

  lemma StepBegin(s: State, a: Action)
    requires Inv(s) && Enabled(s, a) && a.Begin?
    ensures Rest(Apply(s, a))
  {
  }

  lemma StepLook(s: State, a: Action)
    requires Inv(s) && Enabled(s, a) && a.Look?
    ensures Rest(Apply(s, a))
  {
  }

  lemma StepWipe(s: State, a: Action)
    requires Inv(s) && Enabled(s, a) && a.Wipe?
    ensures Rest(Apply(s, a))
  {
  }

  lemma StepPick(s: State, a: Action)
    requires Inv(s) && Enabled(s, a) && a.Pick?
    ensures Rest(Apply(s, a))
  {
  }

  lemma StepPinCheck(s: State, a: Action)
    requires Inv(s) && Enabled(s, a) && a.PinCheck?
    ensures Rest(Apply(s, a))
  {
  }

  lemma StepSave(s: State, a: Action)
    requires Inv(s) && Enabled(s, a) && a.Save?
    ensures Rest(Apply(s, a))
  {
  }

  lemma StepPoison(s: State, a: Action)
    requires Inv(s) && Enabled(s, a) && a.Poison?
    ensures Rest(Apply(s, a))
  {
  }

  lemma StepRecheck(s: State, a: Action)
    requires Inv(s) && Enabled(s, a) && a.Recheck?
    ensures Rest(Apply(s, a))
  {
    forall u: nat | u < |s.threads| && s.ways[s.threads[a.t].w].pin == 0
      ensures !Pins(s.threads[u], s.threads[a.t].w)
    {
      NoPinners(s, s.threads[a.t].w, u);
    }
  }

  lemma StepRestore(s: State, a: Action)
    requires Inv(s) && Enabled(s, a) && a.Restore?
    ensures Rest(Apply(s, a))
  {
  }

  lemma StepCopyByte(s: State, a: Action)
    requires Inv(s) && Enabled(s, a) && a.CopyByte?
    ensures Rest(Apply(s, a))
  {
  }

  lemma StepPublish(s: State, a: Action)
    requires Inv(s) && Enabled(s, a) && a.Publish?
    ensures Rest(Apply(s, a))
  {
    var x := s.threads[a.t];
    assert ThreadOk(s, x);
    assert s.ways[x.w].data == s.ways[x.w].data[..x.k] == x.src[..x.k] == x.src;
  }

  lemma StepUnlock(s: State, a: Action)
    requires Inv(s) && Enabled(s, a) && a.Unlock?
    ensures Rest(Apply(s, a))
  {
  }

  lemma StepKeepsInv(s: State, a: Action)
    requires Inv(s) && Enabled(s, a)
    ensures Inv(Apply(s, a))
  {
    StepPins(s, a);
    match a
    case Pin(_, _, _) => StepPin(s, a);
    case Check(_) => StepCheck(s, a);
    case Unpin(_) => StepUnpin(s, a);
    case Begin(_, _, _) => StepBegin(s, a);
    case Look(_) => StepLook(s, a);
    case Wipe(_) => StepWipe(s, a);
    case Pick(_, _) => StepPick(s, a);
    case PinCheck(_) => StepPinCheck(s, a);
    case Save(_) => StepSave(s, a);
    case Poison(_) => StepPoison(s, a);
    case Recheck(_) => StepRecheck(s, a);
    case Restore(_) => StepRestore(s, a);
    case CopyByte(_) => StepCopyByte(s, a);
    case Publish(_) => StepPublish(s, a);
    case Unlock(_) => StepUnlock(s, a);
  }

  // ---------------------------------------------------------------- reachable states

  predicate Next(r: State, a: Action, s: State)
  {
    Enabled(r, a) && s == Apply(r, a)
  }

  ghost predicate Reachable(s: State, k: nat)
    decreases k
  {
    if k == 0 then Init(s) else exists r, a :: Reachable(r, k - 1) && Next(r, a, s)
  }

  lemma {:induction false} ReachableInv(s: State, k: nat)
    requires Reachable(s, k)
    ensures Inv(s)
    decreases k
  {
    if k == 0 {
      InitInv(s);
    } else {
      var r, a :| Reachable(r, k - 1) && Next(r, a, s);
      ReachableInv(r, k - 1);
      NextKeepsInv(r, a, s);
    }
  }

  lemma NextKeepsInv(r: State, a: Action, s: State)
    requires Inv(r) && Next(r, a, s)
    ensures Inv(s)
  {
    StepKeepsInv(r, a);
  }

  /** No byte is ever copied into a way that a verified reader holds. */
  lemma NoCopyUnderReader(s: State, k: nat, a: Action, u: nat)
    requires Reachable(s, k) && Enabled(s, a) && a.CopyByte?
    requires u < |s.threads| && s.threads[u].RHold?
    ensures s.threads[u].w != s.threads[a.t].w
  {
    ReachableInv(s, k);
  }

  /** A verified reader of block `b` sees, for as long as it holds the way, the one image that
      was there when it verified, and that image was given whole to some fill of `b`. */
  lemma ReaderSeesOneImage(s: State, k: nat, u: nat)
    requires Reachable(s, k) && u < |s.threads| && s.threads[u].RHold?
    ensures var x := s.threads[u];
            && x.w < |s.ways| && s.ways[x.w].data == x.seen
            && (x.b, x.seen) in s.given
  {
    ReachableInv(s, k);
    assert ThreadOk(s, s.threads[u]);
  }

  // ---------------------------------------------------------------- what cannot be claimed

  /** `P` holds wherever a run that starts inside `P` can go. */
  ghost predicate Closed(P: State -> bool)
  {
    forall r, a, s :: P(r) && Next(r, a, s) ==> P(s)
  }

  lemma Go(P: State -> bool, r: State, a: Action) returns (s: State)
    requires Closed(P) && P(r) && Enabled(r, a)
    ensures P(s) && s == Apply(r, a)
  {
    s := Apply(r, a);
    assert Next(r, a, s);
  }

  /** Two ways of one byte each and three threads. */
  predicate Small(s: State)
  {
    && s.size == 1 && |s.ways| == 2 && |s.threads| == 3
    && forall w: nat | w < 2 :: |s.ways[w].data| == 1
  }

  /** The walk finds nothing to wipe when no way names the block. */
  lemma WalkPast(P: State -> bool, r: State, t: nat, b: nat, src: Image) returns (s: State)
    requires Closed(P) && P(r) && Small(r) && t < 3 && r.threads[t] == Idle && |src| == 1
    requires r.ways[0].tag != Blk(b) && r.ways[1].tag != Blk(b)
    ensures P(s) && Small(s) && s.ways == r.ways && s.threads == r.threads[t := FWalk(2, b, src)]
  {
    s := Go(P, r, Begin(t, b, src));
    s := Go(P, s, Look(t));
    s := Go(P, s, Look(t));
  }

  lemma LockAndPoison(P: State -> bool, r: State, t: nat, w: nat, b: nat, src: Image) returns (s: State)
    requires Closed(P) && P(r) && Small(r) && t < 3 && w < 2 && r.threads[t] == FWalk(2, b, src) && |src| == 1
    requires r.ways[w].lock == Free && r.ways[w].pin == 0
    ensures P(s) && Small(s) && s.threads == r.threads[t := WPoisoned(w, b, src, r.ways[w].tag)]
    ensures s.ways == r.ways[w := r.ways[w].(lock := By(t), tag := Invalid)]
  {
    s := Go(P, r, Pick(t, w));
    s := Go(P, s, PinCheck(t));
    s := Go(P, s, Save(t));
    s := Go(P, s, Poison(t));
  }

  lemma CopyAndPublish(P: State -> bool, r: State, t: nat, w: nat, b: nat, src: Image, was: Tag) returns (s: State)
    requires Closed(P) && P(r) && Small(r) && t < 3 && w < 2 && r.threads[t] == WPoisoned(w, b, src, was) && |src| == 1
    requires r.ways[w].lock == By(t) && r.ways[w].pin == 0
    ensures P(s) && Small(s) && s.threads == r.threads[t := Idle]
    ensures s.ways == r.ways[w := Way(Free, Blk(b), 0, src)]
  {
    s := Go(P, r, Recheck(t));
    s := Go(P, s, CopyByte(t));
    assert s.ways[w].data == src;
    s := Go(P, s, Publish(t));
    s := Go(P, s, Unlock(t));
  }

  /** A fill that nobody disturbs publishes its image. */
  lemma FillAlone(P: State -> bool, r: State, t: nat, w: nat, b: nat, src: Image) returns (s: State)
    requires Closed(P) && P(r) && Small(r) && t < 3 && w < 2 && r.threads[t] == Idle && |src| == 1
    requires r.ways[0].tag != Blk(b) && r.ways[1].tag != Blk(b)
    requires r.ways[w].lock == Free && r.ways[w].pin == 0
    ensures P(s) && Small(s) && s.threads == r.threads
    ensures s.ways == r.ways[w := Way(Free, Blk(b), 0, src)]
  {
    s := WalkPast(P, r, t, b, src);
    s := LockAndPoison(P, s, t, w, b, src);
    s := CopyAndPublish(P, s, t, w, b, src, r.ways[w].tag);
  }

  /** A reader's pin sends the writer back; the other fill runs in between. */
  lemma RestoreAfterFill(P: State -> bool, r: State) returns (s: State)
    requires Closed(P) && P(r) && Small(r) && r.threads == [Idle, Idle, Idle]
    requires r.ways == [Way(Free, Blk(1), 0, [1]), Way(Free, Blk(2), 0, [2])]
    ensures P(s) && s.threads == [Idle, Idle, Idle]
    ensures s.ways == [Way(Free, Blk(1), 0, [1]), Way(Free, Blk(1), 0, [4])]
  {
    s := WalkPast(P, r, 0, 3, [3]);
    s := LockAndPoison(P, s, 0, 0, 3, [3]);
    s := Go(P, s, Pin(1, 0, 9));
    s := Go(P, s, Recheck(0));
    s := FillAlone(P, s, 2, 1, 1, [4]);
    s := Go(P, s, Restore(0));
    s := Go(P, s, Unlock(0));
    s := Go(P, s, Check(1));
    s := Go(P, s, Unpin(1));
  }

  ghost function Reaches(): State -> bool
  {
    s => exists k: nat :: Reachable(s, k)
  }

  lemma ReachesIsClosed()
    ensures Closed(Reaches())
  {
    forall r, a, s | Reaches()(r) && Next(r, a, s)
      ensures Reaches()(s)
    {
      var k: nat :| Reachable(r, k);
      assert Reachable(s, k + 1);
    }
  }

  /** The coherence rule "one way per block" is not kept under interleaving: a fill that
      restores an old tag after another fill of that block has walked past leaves two ways
      naming the block, all threads idle, the old image among them.  A later reader that
      comes to way 0 first is verified against data older than the last fill. */
  lemma TwoWaysCanNameOneBlock() returns (s: State, k: nat)
    ensures Reachable(s, k)
    ensures s.threads == [Idle, Idle, Idle] && |s.ways| == 2
    ensures s.ways[0].tag == s.ways[1].tag == Blk(1) && s.ways[0].data != s.ways[1].data
  {
    var P := Reaches();
    ReachesIsClosed();
    s := State(1, [Way(Free, Invalid, 0, [0]), Way(Free, Invalid, 0, [0])], [Idle, Idle, Idle], {});
    assert Reachable(s, 0);
    s := FillAlone(P, s, 0, 0, 1, [1]);
    s := FillAlone(P, s, 0, 1, 2, [2]);
    s := RestoreAfterFill(P, s);
    k :| Reachable(s, k);
  }

  /** Two fills of one block that both look before either publishes do the same. */
  lemma TwoFillsCanPublishOneBlock() returns (s: State, k: nat)
    ensures Reachable(s, k)
    ensures s.threads == [Idle, Idle, Idle] && |s.ways| == 2
    ensures s.ways[0].tag == s.ways[1].tag == Blk(1) && s.ways[0].data != s.ways[1].data
  {
    var P := Reaches();
    ReachesIsClosed();
    s := State(1, [Way(Free, Invalid, 0, [0]), Way(Free, Invalid, 0, [0])], [Idle, Idle, Idle], {});
    assert Reachable(s, 0);
    s := WalkPast(P, s, 0, 1, [1]);
    s := WalkPast(P, s, 2, 1, [4]);
    s := LockAndPoison(P, s, 0, 0, 1, [1]);
    s := CopyAndPublish(P, s, 0, 0, 1, [1], Invalid);
    s := LockAndPoison(P, s, 2, 1, 1, [4]);
    s := CopyAndPublish(P, s, 2, 1, 1, [4], Invalid);
    k :| Reachable(s, k);
  }

  // ---------------------------------------------------------------- when it can be claimed

  /** The coherence rule: at most one way names a block. */
  ghost predicate OneWay(ways: seq<Way>)
  {
    forall v: nat, w: nat | v < w < |ways| :: ways[v].tag.Blk? ==> ways[v].tag != ways[w].tag
  }

  ghost predicate NamedElsewhere(ways: seq<Way>, w: nat, tag: Tag)
  {
    tag.Blk? && exists v: nat :: v < |ways| && v != w && ways[v].tag == tag
  }

  /** The step writes a tag that another way has. */
  ghost predicate Clashes(s: State, a: Action)
    requires Enabled(s, a)
  {
    var x := s.threads[a.t];
    (a.Publish? && NamedElsewhere(s.ways, x.w, Blk(x.b))) || (a.Restore? && NamedElsewhere(s.ways, x.w, x.was))
  }

  /** Exactly the publications and restorations of a block that another way names break the rule. */
  lemma StepKeepsOneWayIff(s: State, a: Action)
    requires Enabled(s, a) && OneWay(s.ways)
    ensures OneWay(Apply(s, a).ways) <==> !Clashes(s, a)
  {
    var x, s' := s.threads[a.t], Apply(s, a);
    if a.Publish? {
      TagPutIff(s.ways, x.w, s'.ways[x.w]);
    } else if a.Restore? {
      TagPutIff(s.ways, x.w, s'.ways[x.w]);
    }
  }

  lemma TagPutIff(ways: seq<Way>, w: nat, y: Way)
    requires w < |ways| && OneWay(ways)
    ensures OneWay(ways[w := y]) <==> !NamedElsewhere(ways, w, y.tag)
  {
    var ways' := ways[w := y];
    if NamedElsewhere(ways, w, y.tag) {
      var v: nat :| v < |ways| && v != w && ways[v].tag == y.tag;
      assert ways'[v].tag == ways'[w].tag;
    }
  }

  predicate Fills(x: Thread)
  {
    x.FWalk? || x.FSeen? || Writes(x)
  }

  /** What a fill that runs alone has made sure of. */
  ghost predicate FillOk(ways: seq<Way>, x: Thread)
  {
    match x
    case FWalk(w, b, _) => Unnamed(ways, w, b)
    case FSeen(w, b, _) => Unnamed(ways, w, b)
    case WLocked(w, b, _) => Unnamed(ways, |ways|, b)
    case WUnpinned(w, b, _) => Unnamed(ways, |ways|, b)
    case WSaved(w, b, _, was) => Unnamed(ways, |ways|, b) && !NamedElsewhere(ways, w, was)
    case WPoisoned(w, b, _, was) => Unnamed(ways, |ways|, b) && !NamedElsewhere(ways, w, was)
    case WRestore(w, was) => !NamedElsewhere(ways, w, was)
    case WCopy(w, b, _, _) => Unnamed(ways, |ways|, b)
    case _ => true
  }

  /** None of the first `n` ways names the block. */
  ghost predicate Unnamed(ways: seq<Way>, n: nat, b: nat)
  {
    forall w: nat | w < |ways| && w < n :: ways[w].tag != Blk(b)
  }

  /** At most one thread fills, and it has looked at what it must. */
  ghost predicate Calm(s: State)
  {
    && OneWay(s.ways)
    && (forall t: nat, u: nat | t < |s.threads| && u < |s.threads| && Fills(s.threads[t]) && Fills(s.threads[u]) :: t == u)
    && (forall t: nat | t < |s.threads| :: FillOk(s.ways, s.threads[t]))
  }

  /** A fill starts only when no other one is under way; readers come and go as they like. */
  predicate Serial(s: State, a: Action)
  {
    a.Begin? ==> forall t: nat | t < |s.threads| :: !Fills(s.threads[t])
  }

  lemma SerialStepStaysCalm(s: State, a: Action)
    requires Calm(s) && Enabled(s, a) && Serial(s, a)
    ensures Calm(Apply(s, a))
  {
    assert FillOk(s.ways, s.threads[a.t]);
    assert !Clashes(s, a);
    StepKeepsOneWayIff(s, a);
    OwnFillOk(s, a);
    OtherFillsOk(s, a);
    OneFillLeft(s, a);
  }

  /** While another thread fills, this one writes no tag. */
  lemma OtherFillsOk(s: State, a: Action)
    requires Calm(s) && Enabled(s, a) && Serial(s, a)
    ensures forall t: nat | t < |s.threads| && t != a.t :: FillOk(Apply(s, a).ways, s.threads[t])
  {
    forall t: nat | t < |s.threads| && t != a.t && Fills(s.threads[t])
      ensures FillOk(Apply(s, a).ways, s.threads[t])
    {
      assert FillOk(s.ways, s.threads[t]);
      SameTags(s.ways, Apply(s, a).ways, s.threads[t]);
    }
  }

  lemma OneFillLeft(s: State, a: Action)
    requires Calm(s) && Enabled(s, a) && Serial(s, a)
    ensures var post := Apply(s, a).threads;
            forall t: nat, u: nat | t < |post| && u < |post| && Fills(post[t]) && Fills(post[u]) :: t == u
  {
    assert Fills(Apply(s, a).threads[a.t]) ==> Fills(s.threads[a.t]) || a.Begin?;
  }

  lemma SameTags(ways: seq<Way>, ways': seq<Way>, x: Thread)
    requires |ways'| == |ways| && (forall w: nat | w < |ways| :: ways'[w].tag == ways[w].tag) && FillOk(ways, x)
    ensures FillOk(ways', x)
  {
    assert forall n: nat, b: nat | Unnamed(ways, n, b) :: Unnamed(ways', n, b);
    assert forall w: nat, tag | NamedElsewhere(ways', w, tag) :: NamedElsewhere(ways, w, tag);
  }

  /** The step of a thread keeps what its own fill has made sure of. */
  lemma OwnFillOk(s: State, a: Action)
    requires Enabled(s, a) && OneWay(s.ways) && FillOk(s.ways, s.threads[a.t])
    ensures FillOk(Apply(s, a).ways, Apply(s, a).threads[a.t])
  {
  }

  predicate SerialNext(r: State, a: Action, s: State)
  {
    Serial(r, a) && Next(r, a, s)
  }

  ghost predicate SerialRun(s: State, k: nat)
    decreases k
  {
    if k == 0 then Init(s) else exists r, a :: SerialRun(r, k - 1) && SerialNext(r, a, s)
  }

  lemma InitIsCalm(s: State)
    requires Init(s)
    ensures Calm(s)
  {
  }

  /** When fills of the set do not overlap, the coherence rule holds throughout. */
  lemma {:induction false} SerialFillsKeepOneWay(s: State, k: nat)
    requires SerialRun(s, k)
    ensures Calm(s)
    decreases k
  {
    if k == 0 {
      InitIsCalm(s);
    } else {
      var r, a :| SerialRun(r, k - 1) && SerialNext(r, a, s);
      SerialFillsKeepOneWay(r, k - 1);
      SerialStepStaysCalm(r, a);
    }
  }
}
