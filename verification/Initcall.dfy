/** Ordering of boot-time initcalls (kernel/main/initcall.c, run_dag): Kahn's algorithm over the
    dependencies that name another initcall of the same level. */
module Initcall {

  /** `deps[i]` are the names initcall `i` depends on; a name outside the level, or its own,
      counts as satisfied. */
  datatype Graph = Graph(names: seq<string>, deps: seq<seq<string>>)

  ghost predicate Distinct(s: seq<string>)
  {
    forall i: nat, j: nat | i < j < |s| :: s[i] != s[j]
  }

  ghost predicate GraphOk(g: Graph)
  {
    |g.deps| == |g.names| && Distinct(g.names)
  }

  /** Initcall `i` depends on initcall `j` of this level. */
  predicate Dep(g: Graph, i: nat, j: nat)
    requires |g.deps| == |g.names|
  {
    i < |g.names| && j < |g.names| && j != i && g.names[j] in g.deps[i]
  }

  /** In-level dependencies of `i` that are not in `ran`. */
  ghost function Pending(g: Graph, i: nat, ran: set<nat>): set<nat>
    requires |g.deps| == |g.names|
  {
    set j: nat | j < |g.names| && Dep(g, i, j) && j !in ran
  }

  /** The dependency names another initcall of the level. */
  ghost predicate InLevel(g: Graph, i: nat, dep: string)
  {
    exists j: nat :: j < |g.names| && j != i && g.names[j] == dep
  }

  /** How many of the first `d` dependencies of `i` repeat an earlier one of this level. */
  ghost function Repeated(g: Graph, i: nat, d: nat): nat
    requires |g.deps| == |g.names| && i < |g.names| && d <= |g.deps[i]|
  {
    if d == 0 then 0
    else Repeated(g, i, d - 1) + if InLevel(g, i, g.deps[i][d - 1]) && g.deps[i][d - 1] in g.deps[i][..d - 1] then 1 else 0
  }

  /** The dependencies of `i` that have to be met before it can run, and the repetitions, which
      never are. */
  ghost function Load(g: Graph, i: nat, ran: set<nat>): nat
    requires |g.deps| == |g.names| && i < |g.names|
  {
    |Pending(g, i, ran)| + Repeated(g, i, |g.deps[i]|)
  }

  /** Some initcall lists a dependency of its level twice. */
  ghost predicate RepeatsDep(g: Graph)
    requires |g.deps| == |g.names|
  {
    exists i: nat, d: nat, e: nat :: i < |g.deps| && d < e < |g.deps[i]| && g.deps[i][d] == g.deps[i][e] && InLevel(g, i, g.deps[i][e])
  }

  lemma {:induction false} RepeatedIff(g: Graph, i: nat, n: nat)
    requires |g.deps| == |g.names| && i < |g.names| && n <= |g.deps[i]|
    ensures Repeated(g, i, n) > 0 <==>
            exists d: nat, e: nat :: d < e < n && g.deps[i][d] == g.deps[i][e] && InLevel(g, i, g.deps[i][e])
    decreases n
  {
    if n > 0 {
      RepeatedIff(g, i, n - 1);
      var last := g.deps[i][n - 1];
      if InLevel(g, i, last) && last in g.deps[i][..n - 1] {
        var d: nat :| d < n - 1 && g.deps[i][..n - 1][d] == last;
        assert g.deps[i][d] == last;
      }
      if d: nat, e: nat :| d < e < n && g.deps[i][d] == g.deps[i][e] && InLevel(g, i, g.deps[i][e]) && e == n - 1 {
        assert g.deps[i][..n - 1][d] == last;
      }
    }
  }

  ghost function Members(s: seq<nat>): set<nat>
  {
    set x | x in s
  }

  ghost predicate NoRepeat(s: seq<nat>)
  {
    forall i: nat, j: nat | i < j < |s| :: s[i] != s[j]
  }

  /** Every initcall of `order` comes after all its in-level dependencies. */
  ghost predicate InOrder(g: Graph, order: seq<nat>)
    requires |g.deps| == |g.names|
  {
    && NoRepeat(order) && (forall k: nat | k < |order| :: order[k] < |g.names|)
    && forall k: nat | k < |order| :: Pending(g, order[k], Members(order[..k])) == {}
  }

  // ---------------------------------------------------------------- counting dependencies

  /** The lookup of one dependency among the other nodes. */
  method FindOther(g: Graph, i: nat, dep: string) returns (j: nat)
    requires |g.deps| == |g.names|
    ensures j <= |g.names| && (j < |g.names| ==> j != i && g.names[j] == dep)
    ensures j == |g.names| ==> forall m: nat | m < |g.names| && m != i :: g.names[m] != dep
  {
    j := 0;
    while j < |g.names|
      invariant j <= |g.names| && forall m: nat | m < j && m != i :: g.names[m] != dep
    {
      if j != i && g.names[j] == dep { return; }
      j := j + 1;
    }
  }

  /** The in-degree of one node: one for each dependency found in the level, repetitions included. */
  method CountDeps(g: Graph, i: nat) returns (count: nat)
    requires GraphOk(g) && i < |g.names|
    ensures count == Load(g, i, {})
  {
    count := 0;
    ghost var found: set<nat> := {};
    var d: nat := 0;
    while d < |g.deps[i]|
      invariant d <= |g.deps[i]| && count == |found| + Repeated(g, i, d)
      invariant FoundIn(g, i, d, found)
    {
      var j := FindOther(g, i, g.deps[i][d]);
      CountOne(g, i, d, found, j);
      if j < |g.names| { found, count := found + {j}, count + 1; }
      d := d + 1;
    }
    assert g.deps[i][..d] == g.deps[i];
    assert found == Pending(g, i, {});
  }

  /** The nodes that the first `d` dependencies name. */
  ghost predicate FoundIn(g: Graph, i: nat, d: nat, found: set<nat>)
    requires |g.deps| == |g.names| && i < |g.names| && d <= |g.deps[i]|
  {
    forall j: nat :: j in found <==> j < |g.names| && j != i && g.names[j] in g.deps[i][..d]
  }

  lemma CountOne(g: Graph, i: nat, d: nat, found: set<nat>, j: nat)
    requires GraphOk(g) && i < |g.names| && d < |g.deps[i]| && FoundIn(g, i, d, found)
    requires j <= |g.names| && (j < |g.names| ==> j != i && g.names[j] == g.deps[i][d])
    requires j == |g.names| ==> forall m: nat | m < |g.names| && m != i :: g.names[m] != g.deps[i][d]
    ensures j == |g.names| ==> FoundIn(g, i, d + 1, found) && Repeated(g, i, d + 1) == Repeated(g, i, d)
    ensures j < |g.names| ==> FoundIn(g, i, d + 1, found + {j})
                              && |found + {j}| + Repeated(g, i, d + 1) == |found| + Repeated(g, i, d) + 1
  {
    assert g.deps[i][..d + 1] == g.deps[i][..d] + [g.deps[i][d]];
    if j < |g.names| {
      assert InLevel(g, i, g.deps[i][d]);
      assert j in found <==> g.deps[i][d] in g.deps[i][..d];
      if j in found { assert found + {j} == found; }
    }
  }

  // ---------------------------------------------------------------- the queue

  lemma PendingStep(g: Graph, i: nat, ran: set<nat>, x: nat)
    requires |g.deps| == |g.names| && x !in ran
    ensures |Pending(g, i, ran + {x})| == |Pending(g, i, ran)| - (if Dep(g, i, x) then 1 else 0)
  {
    assert Pending(g, i, ran + {x}) == Pending(g, i, ran) - {x};
  }

  lemma {:induction false} NoRepeatBound(s: seq<nat>, n: nat)
    requires NoRepeat(s) && forall k: nat | k < |s| :: s[k] < n
    ensures |s| <= n
  {
    if s == [] {
    } else if k: nat :| k < |s| && s[k] == n - 1 {
      var t := s[..k] + s[k + 1..];
      assert forall m: nat | m < |t| :: t[m] == s[if m < k then m else m + 1];
      NoRepeatBound(t, n - 1);
    } else {
      assert s[0] < n;
      NoRepeatBound(s, n - 1);
    }
  }

  /** Degrees count the dependencies outside `ran`. */
  ghost predicate DegreesOk(g: Graph, deg: seq<nat>, ran: set<nat>, from: nat, upto: nat)
    requires |g.deps| == |g.names|
  {
    |deg| == |g.names| && forall i: nat | from <= i < upto && i < |deg| :: deg[i] == Load(g, i, ran)
  }

  /** The queue holds exactly the nodes whose degree is zero, each once. */
  ghost predicate QueueOk(queue: seq<nat>, deg: seq<nat>, upto: nat)
  {
    && NoRepeat(queue) && (forall k: nat | k < |queue| :: queue[k] < |deg|)
    && forall i: nat | i < |deg| :: i in queue <==> i < upto && deg[i] == 0
  }

  ghost predicate DoneOk(done: seq<bool>, order: seq<nat>)
  {
    forall i: nat | i < |done| :: done[i] <==> i in order
  }

  /** Between two turns of the main loop. */
  ghost predicate LoopOk(g: Graph, deg: seq<nat>, done: seq<bool>, queue: seq<nat>, order: seq<nat>)
    requires GraphOk(g)
  {
    && |done| == |g.names| && DegreesOk(g, deg, Members(order), 0, |g.names|) && QueueOk(queue, deg, |g.names|)
    && DoneOk(done, order) && order <= queue && InOrder(g, order)
  }

  /** Running the node at the head of the queue. */
  lemma RunHead(g: Graph, deg: seq<nat>, done: seq<bool>, queue: seq<nat>, order: seq<nat>, x: nat)
    requires GraphOk(g) && LoopOk(g, deg, done, queue, order) && |order| < |queue| && x == queue[|order|]
    ensures x < |g.names| && x !in order && InOrder(g, order + [x]) && order + [x] <= queue
    ensures Members(order + [x]) == Members(order) + {x}
    ensures DoneOk(done[x := true], order + [x])
  {
    assert x in queue && deg[x] == 0;
    assert x !in order by { assert forall k: nat | k < |order| :: order[k] == queue[k]; }
    InOrderExtends(g, order, x);
  }

  lemma InOrderExtends(g: Graph, order: seq<nat>, x: nat)
    requires |g.deps| == |g.names| && InOrder(g, order) && x < |g.names| && x !in order && Pending(g, x, Members(order)) == {}
    ensures InOrder(g, order + [x])
  {
    var next := order + [x];
    forall k: nat | k < |next|
      ensures Pending(g, next[k], Members(next[..k])) == {}
    {
      assert next[..k] == order[..k];
      if k == |order| { assert order[..k] == order; }
    }
  }

  /** Halfway through lowering the degrees after `x` ran: nodes below `p` are up to date. */
  ghost predicate Lowering(g: Graph, deg: seq<nat>, queue: seq<nat>, ran: set<nat>, x: nat, p: nat)
    requires GraphOk(g)
  {
    && DegreesOk(g, deg, ran + {x}, 0, p) && DegreesOk(g, deg, ran, p, |g.names|)
    && QueueOk(queue, deg, |g.names|)
  }

  /** A node that depends on `x` loses one degree; at zero it joins the queue. */
  lemma LowerOne(g: Graph, deg: seq<nat>, queue: seq<nat>, ran: set<nat>, x: nat, p: nat)
    requires GraphOk(g) && Lowering(g, deg, queue, ran, x, p) && p < |g.names| && x < |g.names| && x !in ran && Dep(g, p, x)
    ensures deg[p] > 0 && (deg[p] == 1 ==> |queue| < |g.names|)
    ensures Lowering(g, deg[p := deg[p] - 1], if deg[p] == 1 then queue + [p] else queue, ran, x, p + 1)
  {
    PendingStep(g, p, ran, x);
    if deg[p] == 1 {
      assert p !in queue;
      NoRepeatBound(queue + [p], |g.names|);
    }
  }

  lemma LowerNone(g: Graph, deg: seq<nat>, queue: seq<nat>, ran: set<nat>, x: nat, p: nat)
    requires GraphOk(g) && Lowering(g, deg, queue, ran, x, p) && p < |g.names| && x < |g.names| && x !in ran && !Dep(g, p, x)
    ensures Lowering(g, deg, queue, ran, x, p + 1)
  {
    PendingStep(g, p, ran, x);
  }

  // ---------------------------------------------------------------- the algorithm

  /** The in-degree pass and the seeding of the queue. */
  method Seed(g: Graph, deg: array<nat>, queue: array<nat>) returns (qtail: nat)
    requires GraphOk(g) && deg.Length == |g.names| && queue.Length == |g.names| && deg != queue
    modifies deg, queue
    ensures qtail <= queue.Length
    ensures DegreesOk(g, deg[..], {}, 0, |g.names|) && QueueOk(queue[..qtail], deg[..], |g.names|)
  {
    var n := |g.names|;
    var i: nat := 0;
    while i < n
      invariant i <= n && forall k: nat | k < i :: deg[k] == Load(g, k, {})
      modifies deg
    {
      deg[i] := CountDeps(g, i);
      i := i + 1;
    }
    ghost var d := deg[..];
    qtail, i := 0, 0;
    while i < n
      invariant i <= n && qtail <= i && deg[..] == d
      invariant QueueOk(queue[..qtail], d, i)
      modifies queue
    {
      if deg[i] == 0 {
        queue[qtail] := i;
        qtail := qtail + 1;
        assert queue[..qtail] == queue[..qtail - 1] + [i];
      }
      i := i + 1;
    }
  }

  /** One node of that walk: a node that depends on `x` loses one degree, and is queued at zero. */
  method LowerNode(g: Graph, x: nat, i: nat, deg: array<nat>, done: array<bool>, queue: array<nat>, qtail: nat, ghost order: seq<nat>)
    returns (qtail': nat)
    requires GraphOk(g) && deg.Length == |g.names| && done.Length == |g.names| && queue.Length == |g.names|
    requires deg != queue && x < |g.names| && i < |g.names| && qtail <= queue.Length && x !in order
    requires Lowering(g, deg[..], queue[..qtail], Members(order), x, i)
    requires DoneOk(done[..], order + [x]) && forall y | y in order :: y in queue[..qtail]
    modifies deg, queue
    ensures qtail <= qtail' <= queue.Length && queue[..qtail] == old(queue[..qtail])
    ensures Lowering(g, deg[..], queue[..qtail'], Members(order), x, i + 1)
  {
    qtail' := qtail;
    ghost var d, q := deg[..], queue[..qtail];
    if !done[i] && g.names[x] in g.deps[i] {
      LowerOne(g, d, q, Members(order), x, i);
      LowerInPlace(deg, i);
      if deg[i] == 0 {
        queue[qtail] := i;
        qtail' := qtail + 1;
        assert queue[..qtail'] == q + [i];
      }
    } else {
      if done[i] { DoneHasNoDep(g, d, q, order, x, i); }
      LowerNone(g, d, q, Members(order), x, i);
    }
  }

  method LowerInPlace(deg: array<nat>, i: nat)
    requires i < deg.Length && deg[i] > 0
    modifies deg
    ensures deg[..] == old(deg[..])[i := old(deg[i]) - 1]
  {
    if deg[i] > 0 { deg[i] := deg[i] - 1; }
  }

  /** The walk that lowers the degrees of the nodes that depend on `x`. */
  method Lower(g: Graph, x: nat, deg: array<nat>, done: array<bool>, queue: array<nat>, qtail: nat, ghost order: seq<nat>)
    returns (qtail': nat)
    requires GraphOk(g) && deg.Length == |g.names| && done.Length == |g.names| && queue.Length == |g.names|
    requires deg != queue && x < |g.names| && qtail <= queue.Length && x !in order
    requires Lowering(g, deg[..], queue[..qtail], Members(order), x, 0)
    requires DoneOk(done[..], order + [x]) && forall y | y in order :: y in queue[..qtail]
    modifies deg, queue
    ensures qtail <= qtail' <= queue.Length && queue[..qtail] == old(queue[..qtail])
    ensures Lowering(g, deg[..], queue[..qtail'], Members(order), x, |g.names|)
  {
    qtail' := qtail;
    var i: nat := 0;
    while i < |g.names|
      invariant i <= |g.names| && qtail <= qtail' <= queue.Length
      invariant queue[..qtail] == old(queue[..qtail]) && forall y | y in order :: y in queue[..qtail']
      invariant Lowering(g, deg[..], queue[..qtail'], Members(order), x, i)
    {
      ghost var before, tail := queue[..qtail'], qtail';
      qtail' := LowerNode(g, x, i, deg, done, queue, qtail', order);
      StillQueued(before, queue[..qtail'], order, qtail);
      i := i + 1;
    }
  }

  lemma StillQueued(before: seq<nat>, after: seq<nat>, order: seq<nat>, k: nat)
    requires before <= after && k <= |before| && forall y | y in order :: y in before
    ensures after[..k] == before[..k] && forall y | y in order :: y in after
  {
  }

  /** A node that ran does not depend on the one that runs now. */
  lemma DoneHasNoDep(g: Graph, deg: seq<nat>, queue: seq<nat>, order: seq<nat>, x: nat, i: nat)
    requires GraphOk(g) && Lowering(g, deg, queue, Members(order), x, i) && i < |g.names| && x !in order
    requires i in order + [x] && forall y | y in order :: y in queue
    ensures !Dep(g, i, x)
  {
    if i != x {
      assert i in queue && deg[i] == 0 && Pending(g, i, Members(order)) == {};
      assert x !in Pending(g, i, Members(order));
    }
  }

  /** One turn of the main loop: `x` has run, its dependants are told. */
  method RunOne(g: Graph, x: nat, deg: array<nat>, done: array<bool>, queue: array<nat>, qtail: nat, ghost order: seq<nat>)
    returns (qtail': nat)
    requires GraphOk(g) && deg.Length == |g.names| && done.Length == |g.names| && queue.Length == |g.names| && deg != queue
    requires qtail <= queue.Length && LoopOk(g, deg[..], done[..], queue[..qtail], order)
    requires |order| < qtail && x == queue[|order|]
    modifies deg, done, queue
    ensures qtail <= qtail' <= queue.Length && LoopOk(g, deg[..], done[..], queue[..qtail'], order + [x])
  {
    RunHead(g, deg[..], done[..], queue[..qtail], order, x);
    ghost var d, q := done[..], queue[..qtail];
    done[x] := true;
    assert done[..] == d[x := true];
    qtail' := Lower(g, x, deg, done, queue, qtail, order);
    assert q <= queue[..qtail'] by { assert q == queue[..qtail'][..qtail]; }
  }

  /** run_dag.  `fails[i]` says that initcall `i` is required and fails, which halts the boot. */
  method RunDag(g: Graph, fails: seq<bool>) returns (order: seq<nat>, halted: bool)
    requires GraphOk(g) && |fails| == |g.names|
    ensures InOrder(g, order)
    ensures halted ==> order != [] && fails[order[|order| - 1]]
    ensures !halted ==> forall k: nat | k < |order| :: !fails[order[k]]
    ensures !halted ==> forall i: nat | i < |g.names| && i !in order :: Load(g, i, Members(order)) > 0
    ensures !halted ==> (|order| < |g.names| <==> HasCycle(g) || RepeatsDep(g))
  {
    var n := |g.names|;
    var deg, queue, done := new nat[n], new nat[n], new bool[n](_ => false);
    var qtail := Seed(g, deg, queue);
    order, halted := [], false;
    assert Members([]) == {};
    while |order| != qtail
      invariant |order| <= qtail <= n && LoopOk(g, deg[..], done[..], queue[..qtail], order)
      invariant forall k: nat | k < |order| :: !fails[order[k]]
      decreases n - |order|
    {
      var x := queue[|order|];
      RunHead(g, deg[..], done[..], queue[..qtail], order, x);
      if fails[x] { return order + [x], true; }
      qtail := RunOne(g, x, deg, done, queue, qtail, order);
      order := order + [x];
    }
    Finished(g, deg[..], queue[..qtail], order);
  }

  // ---------------------------------------------------------------- cycles

  /** Each step of the path goes to a dependency. */
  ghost predicate Walk(g: Graph, path: seq<nat>)
    requires |g.deps| == |g.names|
  {
    forall k: nat | k + 1 < |path| :: Dep(g, path[k], path[k + 1])
  }

  ghost predicate HasCycle(g: Graph)
    requires |g.deps| == |g.names|
  {
    exists path: seq<nat> :: |path| >= 2 && Walk(g, path) && path[0] == path[|path| - 1]
  }

  /** When the queue runs dry, all nodes ran if and only if there is no cycle and no repetition. */
  lemma Finished(g: Graph, deg: seq<nat>, queue: seq<nat>, order: seq<nat>)
    requires GraphOk(g) && DegreesOk(g, deg, Members(order), 0, |g.names|) && QueueOk(queue, deg, |g.names|)
    requires order == queue && InOrder(g, order)
    ensures forall i: nat | i < |g.names| && i !in order :: Load(g, i, Members(order)) > 0
    ensures |order| < |g.names| <==> HasCycle(g) || RepeatsDep(g)
  {
    NoRepeatBound(order, |g.names|);
    if |order| < |g.names| {
      var x := Missing(order, |g.names|);
      if !RepeatsDep(g) { StuckHasCycle(g, deg, order, x); }
    } else {
      forall path: seq<nat> | |path| >= 2 && Walk(g, path)
        ensures path[0] != path[|path| - 1]
      {
        WalkGoesBack(g, order, path);
      }
      forall i: nat | i < |g.names|
        ensures Repeated(g, i, |g.deps[i]|) == 0
      {
        var _ := PositionOf(order, |g.names|, i);
        assert deg[i] == 0;
      }
      NoRepetition(g);
    }
  }

  lemma NoRepetition(g: Graph)
    requires |g.deps| == |g.names|
    ensures RepeatsDep(g) <==> exists i: nat :: i < |g.names| && Repeated(g, i, |g.deps[i]|) > 0
  {
    forall i: nat | i < |g.names|
      ensures Repeated(g, i, |g.deps[i]|) > 0 <==>
              exists d: nat, e: nat :: d < e < |g.deps[i]| && g.deps[i][d] == g.deps[i][e] && InLevel(g, i, g.deps[i][e])
    {
      RepeatedIff(g, i, |g.deps[i]|);
    }
  }

  lemma {:induction false} Missing(s: seq<nat>, n: nat) returns (x: nat)
    requires NoRepeat(s) && (forall k: nat | k < |s| :: s[k] < n) && |s| < n
    ensures x < n && x !in s
  {
    if k: nat :| k < |s| && s[k] == n - 1 {
      var t := s[..k] + s[k + 1..];
      assert forall m: nat | m < |t| :: t[m] == s[if m < k then m else m + 1];
      x := Missing(t, n - 1);
      assert forall m: nat | m < |s| && m != k :: s[m] == t[if m < k then m else m - 1];
    } else {
      x := n - 1;
    }
  }

  /** From a node that did not run, dependencies that did not run lead on for ever. */
  lemma {:induction false} StuckWalk(g: Graph, deg: seq<nat>, order: seq<nat>, x: nat, len: nat) returns (path: seq<nat>)
    requires GraphOk(g) && DegreesOk(g, deg, Members(order), 0, |g.names|) && QueueOk(order, deg, |g.names|)
    requires x < |g.names| && x !in order && len > 0 && !RepeatsDep(g)
    ensures |path| == len && path[0] == x && Walk(g, path) && forall k: nat | k < len :: path[k] < |g.names|
    decreases len
  {
    if len == 1 {
      path := [x];
    } else {
      NoRepetition(g);
      assert deg[x] > 0;
      var next: nat :| next in Pending(g, x, Members(order));
      var rest := StuckWalk(g, deg, order, next, len - 1);
      path := [x] + rest;
    }
  }

  lemma StuckHasCycle(g: Graph, deg: seq<nat>, order: seq<nat>, x: nat)
    requires GraphOk(g) && DegreesOk(g, deg, Members(order), 0, |g.names|) && QueueOk(order, deg, |g.names|)
    requires x < |g.names| && x !in order && !RepeatsDep(g)
    ensures HasCycle(g)
  {
    var path := StuckWalk(g, deg, order, x, |g.names| + 1);
    var i, j := Repeats(path, |g.names|);
    var loop := SubWalk(g, path, i, j);
    assert |loop| >= 2 && Walk(g, loop) && loop[0] == loop[|loop| - 1];
  }

  lemma SubWalk(g: Graph, path: seq<nat>, i: nat, j: nat) returns (sub: seq<nat>)
    requires |g.deps| == |g.names| && Walk(g, path) && i < j < |path|
    ensures |sub| == j - i + 1 && sub[0] == path[i] && sub[j - i] == path[j] && Walk(g, sub)
  {
    sub := path[i..j + 1];
    forall k: nat | k + 1 < |sub|
      ensures Dep(g, sub[k], sub[k + 1])
    {
      assert Dep(g, path[i + k], path[(i + k) + 1]);
    }
  }

  lemma Repeats(path: seq<nat>, n: nat) returns (i: nat, j: nat)
    requires |path| > n && forall k: nat | k < |path| :: path[k] < n
    ensures i < j < |path| && path[i] == path[j]
  {
    assert !NoRepeat(path) by { if NoRepeat(path) { NoRepeatBound(path, n); } }
    i, j :| i < j < |path| && path[i] == path[j];
  }

  /** In a complete order every walk goes back, so none returns to its start. */
  lemma {:induction false} WalkGoesBack(g: Graph, order: seq<nat>, path: seq<nat>)
    requires |g.deps| == |g.names| && InOrder(g, order) && |order| == |g.names| && |path| >= 2 && Walk(g, path)
    ensures path[0] != path[|path| - 1]
    ensures exists a: nat, b: nat :: b < a < |order| && order[a] == path[0] && order[b] == path[|path| - 1]
    decreases |path|
  {
    assert Dep(g, path[0], path[1]);
    var a := PositionOf(order, |g.names|, path[0]);
    assert path[1] !in Pending(g, order[a], Members(order[..a]));
    var c: nat :| c < a && order[c] == path[1];
    if |path| > 2 {
      var rest := path[1..];
      assert forall k: nat | k < |rest| :: rest[k] == path[k + 1];
      WalkGoesBack(g, order, rest);
      var a': nat, b: nat :| b < a' < |order| && order[a'] == rest[0] && order[b] == rest[|rest| - 1];
      assert a' == c;
    }
  }

  lemma PositionOf(order: seq<nat>, n: nat, x: nat) returns (a: nat)
    requires NoRepeat(order) && (forall k: nat | k < |order| :: order[k] < n) && |order| == n && x < n
    ensures a < |order| && order[a] == x
  {
    if x !in order { NoRepeatBound(order + [x], n); }
    a :| a < |order| && order[a] == x;
  }

  /** Two initcalls, the second naming the first twice: the second never runs, and the boot stops
      with the report of a cycle that is not there. */
  method RepetitionLooksLikeCycle() returns (g: Graph, order: seq<nat>, halted: bool)
    ensures g == Graph(["a", "b"], [[], ["a", "a"]]) && !HasCycle(g) && order == [0] && !halted
  {
    g := Graph(["a", "b"], [[], ["a", "a"]]);
    assert InLevel(g, 1, g.deps[1][1]) by { assert g.names[0] == "a"; }
    forall path: seq<nat> | |path| >= 2 && Walk(g, path)
      ensures path[0] != path[|path| - 1]
    {
      var k := |path| - 2;
      assert Dep(g, path[0], path[1]) && Dep(g, path[k], path[k + 1]);
    }
    order, halted := RunDag(g, [false, false]);
    assert Pending(g, 0, Members(order)) == {};
    assert 0 in order;
  }
}
