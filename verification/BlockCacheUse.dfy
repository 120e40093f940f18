/** What the pin/poison protocol is for: from every state of every run, a fill that is not disturbed
    publishes its image, and a reader that comes to it holds exactly that image; a thread that runs
    alone always comes to its end. */
module BlockCacheUse {
  import opened BlockCachePins

  /** The verification: a pinned way is held, with the data in it, if and only if its tag names the
      block at that moment; no way changes. */
  lemma CheckHoldsIff(s: State, t: nat)
    requires Enabled(s, Check(t))
    ensures var x, s' := s.threads[t], Apply(s, Check(t));
            && s'.ways == s.ways && s'.given == s.given && |s'.threads| == |s.threads|
            && (forall u: nat | u < |s.threads| && u != t :: s'.threads[u] == s.threads[u])
            && (s'.threads[t] == RHold(x.w, x.b, s.ways[x.w].data) <==> s.ways[x.w].tag == Blk(x.b))
            && (s'.threads[t] == RMiss(x.w, x.b) <==> s.ways[x.w].tag != Blk(x.b))
  {
  }

  lemma Step(P: State -> bool, r: State, a: Action) returns (s: State)
    requires Closed(P) && P(r) && Inv(r) && Enabled(r, a)
    ensures P(s) && Inv(s) && s == Apply(r, a)
  {
    StepKeepsInv(r, a);
    s := Go(P, r, a);
  }

  // ---------------------------------------------------------------- a fill

  /** The ways once those from `k` on that name the block have lost their tag. */
  function Wiped(ways: seq<Way>, k: nat, b: nat): (r: seq<Way>)
    ensures |r| == |ways|
  {
    seq(|ways|, j requires 0 <= j < |ways| => if j >= k && ways[j].tag == Blk(b) then ways[j].(tag := Invalid) else ways[j])
  }

  lemma WalkOn(P: State -> bool, r: State, t: nat) returns (s: State)
    requires Closed(P) && P(r) && Inv(r) && t < |r.threads| && r.threads[t].FWalk?
    ensures P(s) && Inv(s) && s.given == r.given && s.size == r.size
    ensures var x := r.threads[t];
            s.ways == Wiped(r.ways, x.w, x.b) && s.threads == r.threads[t := FWalk(|r.ways|, x.b, x.src)]
    decreases |r.ways| - (if r.threads[t].FWalk? then r.threads[t].w else 0)
  {
    var x := r.threads[t];
    assert InRange(r, x);
    s := r;
    if x.w < |r.ways| {
      s := Step(P, s, Look(t));
      if r.ways[x.w].tag == Blk(x.b) { s := Step(P, s, Wipe(t)); }
      s := WalkOn(P, s, t);
    }
  }

  lemma CopyOn(P: State -> bool, r: State, t: nat) returns (s: State)
    requires Closed(P) && P(r) && Inv(r) && t < |r.threads| && r.threads[t].WCopy?
    ensures r.threads[t].w < |r.ways|
    ensures P(s) && Inv(s) && s.given == r.given && s.size == r.size
    ensures var x := r.threads[t];
            && s.ways == r.ways[x.w := r.ways[x.w].(data := x.src)]
            && s.threads == r.threads[t := WCopy(x.w, x.b, x.src, |x.src|)]
    decreases if r.threads[t].WCopy? then |r.threads[t].src| - r.threads[t].k else 0
  {
    var x := r.threads[t];
    assert InRange(r, x) && ThreadOk(r, x);
    s := r;
    if x.k < |x.src| {
      s := Step(P, s, CopyByte(t));
      s := CopyOn(P, s, t);
    } else {
      assert r.ways[x.w].data[..x.k] == r.ways[x.w].data && x.src[..x.k] == x.src;
    }
  }

  lemma Lock(P: State -> bool, r: State, t: nat, w: nat) returns (s: State)
    requires Closed(P) && P(r) && Inv(r) && t < |r.threads| && w < |r.ways| && r.threads[t].FWalk? && r.threads[t].w == |r.ways|
    requires r.ways[w].lock == Free && r.ways[w].pin == 0
    ensures P(s) && Inv(s) && s.given == r.given && s.size == r.size
    ensures var x := r.threads[t];
            && s.ways == r.ways[w := r.ways[w].(lock := By(t), tag := Invalid)]
            && s.threads == r.threads[t := WCopy(w, x.b, x.src, 0)]
  {
    s := Step(P, r, Pick(t, w));
    s := Step(P, s, PinCheck(t));
    s := Step(P, s, Save(t));
    s := Step(P, s, Poison(t));
    s := Step(P, s, Recheck(t));
  }

  /** The fill of one way, once the walk over the set is over. */
  lemma FillOn(P: State -> bool, r: State, t: nat, w: nat) returns (s: State)
    requires Closed(P) && P(r) && Inv(r) && t < |r.threads| && w < |r.ways| && r.threads[t].FWalk? && r.threads[t].w == |r.ways|
    requires r.ways[w].lock == Free && r.ways[w].pin == 0
    ensures P(s) && Inv(s) && s.given == r.given && s.threads == r.threads[t := Idle]
    ensures s.ways == r.ways[w := Way(Free, Blk(r.threads[t].b), 0, r.threads[t].src)]
  {
    s := Lock(P, r, t, w);
    s := CopyOn(P, s, t);
    s := Step(P, s, Publish(t));
    s := Step(P, s, Unlock(t));
  }

  /** A fill that runs alone into a way that is neither locked nor pinned: the way names the block
      and holds the image, no other way names it, and nothing else has changed. */
  lemma FillPublishes(P: State -> bool, r: State, t: nat, w: nat, b: nat, src: Image) returns (s: State)
    requires Closed(P) && P(r) && Inv(r) && t < |r.threads| && w < |r.ways| && r.threads[t] == Idle && |src| == r.size
    requires r.ways[w].lock == Free && r.ways[w].pin == 0
    ensures P(s) && Inv(s) && s.threads == r.threads && s.given == r.given + {(b, src)}
    ensures |s.ways| == |r.ways| && s.ways[w] == Way(Free, Blk(b), 0, src)
    ensures forall v: nat | v < |r.ways| && v != w ::
              s.ways[v] == if r.ways[v].tag == Blk(b) then r.ways[v].(tag := Invalid) else r.ways[v]
  {
    s := Step(P, r, Begin(t, b, src));
    s := WalkOn(P, s, t);
    s := FillOn(P, s, t, w);
    assert s.threads == r.threads;
  }

  lemma ReadOn(P: State -> bool, r: State, w: nat, b: nat, src: Image, u: nat) returns (s: State, end: State)
    requires Closed(P) && P(r) && Inv(r) && u < |r.threads| && r.threads[u] == Idle && w < |r.ways| && r.ways[w] == Way(Free, Blk(b), 0, src)
    ensures P(s) && s.threads == r.threads[u := RHold(w, b, src)] && s.ways == r.ways[w := Way(Free, Blk(b), 1, src)]
    ensures P(end) && end.threads == r.threads[u := Idle] && end.ways == r.ways
  {
    s := Step(P, r, Pin(u, w, b));
    s := Step(P, s, Check(u));
    end := Step(P, s, Unpin(u));
  }

  /** From every reachable state: after such a fill, a reader of the block that comes to the way
      holds exactly the image, and unpinning it leaves the way as the fill did. */
  lemma ReadAfterFill(r: State, k: nat, t: nat, w: nat, b: nat, src: Image, u: nat) returns (s: State, j: nat, end: State, j': nat)
    requires Reachable(r, k) && t < |r.threads| && u < |r.threads| && w < |r.ways| && r.threads[t] == r.threads[u] == Idle && |src| == r.size
    requires r.ways[w].lock == Free && r.ways[w].pin == 0
    ensures Reachable(s, j) && s.threads == r.threads[u := RHold(w, b, src)] && |s.ways| == |r.ways| && s.ways[w] == Way(Free, Blk(b), 1, src)
    ensures Reachable(end, j') && end.threads == r.threads && end.ways == s.ways[w := Way(Free, Blk(b), 0, src)]
  {
    var P := Reaches();
    ReachesIsClosed();
    ReachableInv(r, k);
    var filled := FillPublishes(P, r, t, w, b, src);
    s, end := ReadOn(P, filled, w, b, src, u);
    assert end.threads == r.threads;
    j :| Reachable(s, j);
    j' :| Reachable(end, j');
  }

  /** One way, filled by thread 0 with a byte of block 1 and held by thread 1. */
  lemma ReaderHoldsFilled() returns (s: State, k: nat)
    ensures Reachable(s, k) && s.threads == [Idle, RHold(0, 1, [5])] && s.ways == [Way(Free, Blk(1), 1, [5])]
  {
    var r := State(1, [Way(Free, Invalid, 0, [0])], [Idle, Idle], {});
    assert Reachable(r, 0);
    var end, j;
    s, k, end, j := ReadAfterFill(r, 0, 0, 0, 1, [5], 1);
    assert s.ways == [s.ways[0]];
  }

  /** A fill that finds its way pinned gives up without touching tag or data. */
  lemma PinnedWayIsLeftAlone(P: State -> bool, r: State, t: nat) returns (s: State)
    requires Closed(P) && P(r) && Inv(r) && t < |r.threads| && r.threads[t].WLocked? && r.threads[t].w < |r.ways|
    requires r.ways[r.threads[t].w].pin != 0
    ensures P(s) && Inv(s) && s.threads == r.threads[t := Idle] && s.given == r.given
    ensures var w := r.threads[t].w; s.ways == r.ways[w := r.ways[w].(lock := Free)]
  {
    s := Step(P, r, PinCheck(t));
    s := Step(P, s, Unlock(t));
  }

  /** A reader that came in between sends the fill back: the way is as it was before the fill. */
  lemma PinnedFillRestores(P: State -> bool, r: State, t: nat) returns (s: State)
    requires Closed(P) && P(r) && Inv(r) && t < |r.threads| && r.threads[t].WPoisoned? && r.threads[t].w < |r.ways|
    requires r.ways[r.threads[t].w].pin != 0
    ensures P(s) && Inv(s) && s.threads == r.threads[t := Idle] && s.given == r.given
    ensures var x := r.threads[t]; s.ways == r.ways[x.w := r.ways[x.w].(lock := Free, tag := x.was)]
  {
    s := Step(P, r, Recheck(t));
    s := Step(P, s, Restore(t));
    s := Step(P, s, Unlock(t));
  }

  // ---------------------------------------------------------------- every thread comes to its end

  function Rank(x: Thread): nat
  {
    match x
    case Idle => 0
    case RMiss(_, _) => 1
    case RHold(_, _, _) => 1
    case RPinned(_, _) => 2
    case WUnlock(_) => 1
    case WRestore(_, _) => 2
    case WCopy(_, _, _, _) => 2
    case WPoisoned(_, _, _, _) => 3
    case WSaved(_, _, _, _) => 4
    case WUnpinned(_, _, _) => 5
    case WLocked(_, _, _) => 6
    case FWalk(_, _, _) => 7
    case FSeen(_, _, _) => 7
  }

  /** What the thread does next; a fill that has walked picks way 0, if there is one. */
  function NextOf(s: State, t: nat): Action
    requires t < |s.threads|
  {
    match s.threads[t]
    case Idle => Check(t)
    case RPinned(_, _) => Check(t)
    case RMiss(_, _) => Unpin(t)
    case RHold(_, _, _) => Unpin(t)
    case FWalk(w, _, _) => if w < |s.ways| then Look(t) else Pick(t, 0)
    case FSeen(_, _, _) => Wipe(t)
    case WLocked(_, _, _) => PinCheck(t)
    case WUnpinned(_, _, _) => Save(t)
    case WSaved(_, _, _, _) => Poison(t)
    case WPoisoned(_, _, _, _) => Recheck(t)
    case WRestore(_, _) => Restore(t)
    case WCopy(_, _, src, k) => if k < |src| then CopyByte(t) else Publish(t)
    case WUnlock(_) => Unlock(t)
  }

  function Left(s: State, x: Thread): nat
  {
    match x
    case FWalk(w, _, _) => if w < |s.ways| then 2 * (|s.ways| - w) else 0
    case FSeen(w, _, _) => if w < |s.ways| then 2 * (|s.ways| - w) - 1 else 0
    case WCopy(_, _, src, k) => if k < |src| then |src| - k else 0
    case _ => 0
  }

  /** No thread ever waits for another, in whatever state it is. */
  lemma NeverBlocked(s: State, t: nat)
    requires Inv(s) && t < |s.threads| && s.threads[t] != Idle && |s.ways| > 0
    ensures Enabled(s, NextOf(s, t))
    ensures var s' := Apply(s, NextOf(s, t));
            && |s'.threads| == |s.threads| && |s'.ways| == |s.ways|
            && (forall u: nat | u < |s.threads| && u != t :: s'.threads[u] == s.threads[u])
            && var x, y := s.threads[t], s'.threads[t]; Rank(y) < Rank(x) || (Rank(y) == Rank(x) && Left(s', y) < Left(s, x))
  {
    var x := s.threads[t];
    assert InRange(s, x) && ThreadOk(s, x);
    if x.RMiss? || x.RHold? { assert t in Pinners(s.threads, x.w); }
  }

  lemma ComesToEnd(P: State -> bool, r: State, t: nat) returns (s: State)
    requires Closed(P) && P(r) && Inv(r) && t < |r.threads| && |r.ways| > 0
    ensures P(s) && Inv(s) && |s.threads| == |r.threads| && s.threads[t] == Idle
    ensures forall u: nat | u < |r.threads| && u != t :: s.threads[u] == r.threads[u]
    decreases if t < |r.threads| then Rank(r.threads[t]) else 0, if t < |r.threads| then Left(r, r.threads[t]) else 0
  {
    s := r;
    if r.threads[t] != Idle {
      NeverBlocked(r, t);
      s := Step(P, r, NextOf(r, t));
      s := ComesToEnd(P, s, t);
    }
  }
}
