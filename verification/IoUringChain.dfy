/** Submission in io_uring (kernel/io/io_uring.c): linked chains of requests that run inline in
    the submit loop or are handed to a worker, and the one completion each request gets. */
module IoUringChain {

  const ECANCELED: int := 125
  const OP_READ: nat := 1
  const OP_ACCEPT: nat := 6
  const OP_RECV: nat := 9
  const OP_CONNECT: nat := 7

  datatype Sqe = Sqe(op: nat, link: bool, hard: bool, async: bool, forceSync: bool)

  /** Completion of request number `i` of the queue. */
  datatype Done = Done(i: nat, res: int)

  /** Requests `from` up to `stop`, handed to the worker as one piece. */
  datatype Chain = Chain(from: nat, stop: nat)

  predicate Linked(q: Sqe)
  {
    q.link || q.hard
  }

  predicate GoesAsync(q: Sqe)
  {
    q.async || ((q.op == OP_READ || q.op == OP_ACCEPT || q.op == OP_RECV || q.op == OP_CONNECT) && !q.forceSync)
  }

  // ---------------------------------------------------------------- the rule

  /** Request `i` is cancelled when the request before it is linked to it and was cancelled or
      failed under IO_LINK. `exec` gives the result of running a request. */
  predicate Cancelled(sqes: seq<Sqe>, exec: nat -> int, i: nat)
    requires i < |sqes|
    decreases i
  {
    i > 0 && Linked(sqes[i - 1])
    && (Cancelled(sqes, exec, i - 1) || (sqes[i - 1].link && exec(i - 1) < 0))
  }

  /** The rule on the flags: a request is cancelled exactly when an earlier one failed under IO_LINK
      and every request from there up to it carries one of the two link flags. */
  lemma {:induction false} CancelledIff(sqes: seq<Sqe>, exec: nat -> int, i: nat)
    requires i < |sqes|
    ensures Cancelled(sqes, exec, i) <==>
              exists j: nat :: j < i && sqes[j].link && exec(j) < 0 && forall m: nat | j <= m < i :: sqes[m].link || sqes[m].hard
    decreases i
  {
    if i > 0 {
      CancelledIff(sqes, exec, i - 1);
    }
  }

  /** IO_HARDLINK carries a cancellation on but does not start one. */
  lemma HardLinkPasses(sqes: seq<Sqe>, exec: nat -> int)
    requires |sqes| >= 4 && exec(1) < 0 && exec(0) < 0 && !sqes[0].link && sqes[0].hard
    requires sqes[1].link && !sqes[2].link && sqes[2].hard && !sqes[3].link && !sqes[3].hard
    ensures Result(sqes, exec, 1) == exec(1) && Result(sqes, exec, 2) == Result(sqes, exec, 3) == -125
    ensures |sqes| > 4 ==> Result(sqes, exec, 4) == exec(4)
  {
    CancelledIff(sqes, exec, 2);
  }

  function Result(sqes: seq<Sqe>, exec: nat -> int, i: nat): int
    requires i < |sqes|
  {
    if Cancelled(sqes, exec, i) then -ECANCELED else exec(i)
  }

  /** The completions of requests `from` up to `stop`. */
  ghost function Log(sqes: seq<Sqe>, exec: nat -> int, from: nat, stop: nat): (log: seq<Done>)
    requires from <= stop <= |sqes|
    ensures |log| == stop - from
    decreases stop
  {
    if from == stop then [] else Log(sqes, exec, from, stop - 1) + [Done(stop - 1, Result(sqes, exec, stop - 1))]
  }

  ghost function Logs(sqes: seq<Sqe>, exec: nat -> int, chains: seq<Chain>): multiset<Done>
    requires forall k: nat | k < |chains| :: ChainOk(sqes, exec, chains[k])
  {
    if chains == [] then multiset{}
    else
      var last := chains[|chains| - 1];
      assert ChainOk(sqes, exec, last);
      Logs(sqes, exec, chains[..|chains| - 1]) + multiset(Log(sqes, exec, last.from, last.stop))
  }

  lemma {:induction false} LogSplit(sqes: seq<Sqe>, exec: nat -> int, from: nat, mid: nat, stop: nat)
    requires from <= mid <= stop <= |sqes|
    ensures Log(sqes, exec, from, stop) == Log(sqes, exec, from, mid) + Log(sqes, exec, mid, stop)
    decreases stop
  {
    if mid < stop {
      LogSplit(sqes, exec, from, mid, stop - 1);
    }
  }

  /** A piece of the queue the worker may run on its own. */
  ghost predicate ChainOk(sqes: seq<Sqe>, exec: nat -> int, c: Chain)
  {
    && c.from < c.stop <= |sqes| && !Cancelled(sqes, exec, c.from)
    && forall j: nat | c.from <= j < c.stop - 1 :: Linked(sqes[j])
  }

  // ---------------------------------------------------------------- the worker

  /** The worker's walk over one chain. */
  method RunChain(sqes: seq<Sqe>, exec: nat -> int, c: Chain) returns (log: seq<Done>)
    requires ChainOk(sqes, exec, c)
    ensures log == Log(sqes, exec, c.from, c.stop)
  {
    log := [];
    var w: nat, cancelled := c.from, false;
    while w < c.stop
      invariant c.from <= w <= c.stop && log == Log(sqes, exec, c.from, w)
      invariant w < c.stop ==> (cancelled <==> Cancelled(sqes, exec, w))
    {
      var res := if cancelled then -ECANCELED else exec(w);
      log := log + [Done(w, res)];
      if !cancelled && sqes[w].link && res < 0 { cancelled := true; }
      w := w + 1;
    }
  }

  /** The worker's walk over its stack of chains, last pushed first. */
  method RunWorker(sqes: seq<Sqe>, exec: nat -> int, chains: seq<Chain>) returns (log: seq<Done>)
    requires forall k: nat | k < |chains| :: ChainOk(sqes, exec, chains[k])
    ensures multiset(log) == Logs(sqes, exec, chains)
  {
    log := [];
    var k: nat := |chains|;
    ghost var rest := chains;
    while k > 0
      invariant k <= |chains| && rest == chains[..k]
      invariant multiset(log) + Logs(sqes, exec, rest) == Logs(sqes, exec, chains)
    {
      k := k - 1;
      assert rest[|rest| - 1] == chains[k] && rest[..k] == chains[..k];
      var one := RunChain(sqes, exec, chains[k]);
      log, rest := log + one, rest[..k];
    }
  }

  // ---------------------------------------------------------------- where a call stops

  /** The end of the chain that request `i` belongs to. */
  function ChainEnd(sqes: seq<Sqe>, i: nat): (end: nat)
    requires i < |sqes|
    ensures i < end <= |sqes| && (end == |sqes| || !(sqes[end - 1].link || sqes[end - 1].hard))
    ensures forall j: nat | i <= j < end - 1 :: sqes[j].link || sqes[j].hard
    decreases |sqes| - i
  {
    if Linked(sqes[i]) && i + 1 < |sqes| then ChainEnd(sqes, i + 1) else i + 1
  }

  /** Where the submit loop stops: a chain for the worker costs one of the budget, a request that
      runs or is cancelled inline one each. */
  ghost function Stop(sqes: seq<Sqe>, exec: nat -> int, i: nat, budget: nat): (k: nat)
    requires i <= |sqes|
    ensures i <= k <= |sqes|
    decreases |sqes| - i
  {
    if budget == 0 || i == |sqes| then i
    else
      var end := ChainEnd(sqes, i);
      if GoesAsync(sqes[i]) then Stop(sqes, exec, end, budget - 1)
      else if sqes[i].link && exec(i) < 0 then
        if budget < end - i then i + budget else Stop(sqes, exec, end, budget - (end - i))
      else Stop(sqes, exec, i + 1, budget - 1)
  }

  // ---------------------------------------------------------------- the submit loop

  /** io_wq_enqueue_chain, with allocation succeeding: the chain from `head` to its end. */
  method EnqueueChain(sqes: seq<Sqe>, head: nat) returns (end: nat)
    requires head < |sqes|
    ensures end == ChainEnd(sqes, head)
  {
    end := head + 1;
    while Linked(sqes[end - 1]) && end < |sqes|
      invariant head < end <= |sqes| && ChainEnd(sqes, end - 1) == ChainEnd(sqes, head)
    {
      end := end + 1;
    }
  }

  /** The loop that cancels the rest of a chain after an inline failure. */
  method CancelRest(sqes: seq<Sqe>, exec: nat -> int, head: nat, submitted: nat, budget: nat)
    returns (head': nat, submitted': nat, log: seq<Done>)
    requires 0 < head <= |sqes| && submitted <= budget && (head < |sqes| ==> Cancelled(sqes, exec, head))
    ensures head <= head' <= |sqes| && submitted <= submitted' <= budget && head' - head == submitted' - submitted
    ensures log == Log(sqes, exec, head, head')
    ensures head' < |sqes| && submitted' < budget ==> !Cancelled(sqes, exec, head')
    ensures head < |sqes| ==> head' == if budget - submitted < ChainEnd(sqes, head) - head then head + (budget - submitted) else ChainEnd(sqes, head)
  {
    head', submitted', log := head, submitted, [];
    while submitted' < budget && head' != |sqes|
      invariant head <= head' <= |sqes| && submitted <= submitted' <= budget && head' - head == submitted' - submitted
      invariant log == Log(sqes, exec, head, head') && (head' < |sqes| ==> Cancelled(sqes, exec, head'))
      invariant head < |sqes| ==> if head' < |sqes| then ChainEnd(sqes, head') == ChainEnd(sqes, head) else head' == ChainEnd(sqes, head)
    {
      log := log + [Done(head', -ECANCELED)];
      var more := Linked(sqes[head']);
      head', submitted' := head' + 1, submitted' + 1;
      if !more { break; }
    }
  }

  /** Everything up to `head` was completed inline or lies in one pushed chain. */
  ghost predicate Accounted(sqes: seq<Sqe>, exec: nat -> int, head: nat, log: seq<Done>, chains: seq<Chain>)
    requires head <= |sqes|
  {
    && (forall k: nat | k < |chains| :: ChainOk(sqes, exec, chains[k]))
    && multiset(log) + Logs(sqes, exec, chains) == multiset(Log(sqes, exec, 0, head))
  }

  lemma AccountInline(sqes: seq<Sqe>, exec: nat -> int, head: nat, log: seq<Done>, chains: seq<Chain>, head': nat, more: seq<Done>)
    requires head <= head' <= |sqes| && Accounted(sqes, exec, head, log, chains) && more == Log(sqes, exec, head, head')
    ensures Accounted(sqes, exec, head', log + more, chains)
  {
    LogSplit(sqes, exec, 0, head, head');
  }

  lemma AccountChain(sqes: seq<Sqe>, exec: nat -> int, head: nat, log: seq<Done>, chains: seq<Chain>, end: nat)
    requires head < end <= |sqes| && Accounted(sqes, exec, head, log, chains) && ChainOk(sqes, exec, Chain(head, end))
    ensures Accounted(sqes, exec, end, log, chains + [Chain(head, end)])
  {
    LogSplit(sqes, exec, 0, head, end);
    assert (chains + [Chain(head, end)])[..|chains|] == chains;
  }

  /** The completions of a call come in the order of the queue. */
  ghost predicate InOrder(log: seq<Done>, head: nat)
  {
    && (forall i: nat | i < |log| :: log[i].i < head)
    && (forall i: nat, j: nat | i < j < |log| :: log[i].i < log[j].i)
  }

  lemma InOrderMore(sqes: seq<Sqe>, exec: nat -> int, log: seq<Done>, head: nat, head': nat)
    requires head <= head' <= |sqes| && InOrder(log, head)
    ensures InOrder(log + Log(sqes, exec, head, head'), head')
  {
    LogNumbers(sqes, exec, head, head');
  }

  lemma {:induction false} LogNumbers(sqes: seq<Sqe>, exec: nat -> int, from: nat, stop: nat)
    requires from <= stop <= |sqes|
    ensures forall k: nat | k < stop - from :: Log(sqes, exec, from, stop)[k].i == from + k
    decreases stop
  {
    if from < stop { LogNumbers(sqes, exec, from, stop - 1); }
  }

  /** What the worker gets is what is marked async, or may block and is not marked sync: read,
      accept, receive and connect. */
  ghost predicate Routed(sqes: seq<Sqe>, chains: seq<Chain>)
  {
    forall k: nat | k < |chains| :: chains[k].from < |sqes| &&
      var q := sqes[chains[k].from]; q.async || (q.op in {1, 6, 7, 9} && !q.forceSync)
  }

  /** What is completed in the call is none of that, or was cancelled. */
  ghost predicate Kept(sqes: seq<Sqe>, exec: nat -> int, log: seq<Done>)
  {
    forall k: nat | k < |log| :: log[k].i < |sqes| &&
      var q := sqes[log[k].i]; Cancelled(sqes, exec, log[k].i) || !(q.async || (q.op in {1, 6, 7, 9} && !q.forceSync))
  }

  /** The count a call returns, and who completes what in which order. */
  ghost predicate Counted(sqes: seq<Sqe>, exec: nat -> int, head: nat, submitted: nat, log: seq<Done>, chains: seq<Chain>)
  {
    submitted == |log| + |chains| && InOrder(log, head) && Routed(sqes, chains) && Kept(sqes, exec, log)
  }

  lemma {:induction false} CancelledStays(sqes: seq<Sqe>, exec: nat -> int, head: nat, end: nat)
    requires head < end <= |sqes| && Cancelled(sqes, exec, head) && forall j: nat | head <= j < end - 1 :: Linked(sqes[j])
    ensures forall j: nat | head <= j < end :: Cancelled(sqes, exec, j)
    decreases end
  {
    if head < end - 1 { CancelledStays(sqes, exec, head, end - 1); }
  }

  lemma CountInline(sqes: seq<Sqe>, exec: nat -> int, head: nat, submitted: nat, log: seq<Done>, chains: seq<Chain>)
    requires head < |sqes| && Counted(sqes, exec, head, submitted, log, chains) && !GoesAsync(sqes[head])
    ensures Counted(sqes, exec, head + 1, submitted + 1, log + [Done(head, exec(head))], chains)
  {
  }

  lemma CountChain(sqes: seq<Sqe>, exec: nat -> int, head: nat, end: nat, submitted: nat, log: seq<Done>, chains: seq<Chain>)
    requires head < end <= |sqes| && Counted(sqes, exec, head, submitted, log, chains) && GoesAsync(sqes[head])
    ensures Counted(sqes, exec, end, submitted + 1, log, chains + [Chain(head, end)])
  {
  }

  lemma CountRest(sqes: seq<Sqe>, exec: nat -> int, head: nat, head': nat, submitted: nat, log: seq<Done>, chains: seq<Chain>)
    requires head <= head' <= |sqes| && Counted(sqes, exec, head, submitted, log, chains)
    requires head < |sqes| ==> Cancelled(sqes, exec, head) && head' <= ChainEnd(sqes, head)
    ensures Counted(sqes, exec, head', submitted + (head' - head), log + Log(sqes, exec, head, head'), chains)
  {
    if head < head' { CancelledStays(sqes, exec, head, head'); }
    InOrderMore(sqes, exec, log, head, head');
    LogNumbers(sqes, exec, head, head');
  }

  /** Between two turns of the submit loop. */
  ghost predicate SubmitOk(sqes: seq<Sqe>, exec: nat -> int, budget: nat, head: nat, submitted: nat, log: seq<Done>, chains: seq<Chain>)
  {
    && head <= |sqes| && submitted <= budget && submitted <= head && Accounted(sqes, exec, head, log, chains)
    && (head < |sqes| && submitted < budget ==> !Cancelled(sqes, exec, head))
    && Counted(sqes, exec, head, submitted, log, chains)
    && Stop(sqes, exec, head, budget - submitted) == Stop(sqes, exec, 0, budget)
  }

  /** A turn that hands a chain to the worker. */
  method SubmitAsync(sqes: seq<Sqe>, exec: nat -> int, ghost budget: nat, head: nat, ghost submitted: nat, ghost log: seq<Done>, chains: seq<Chain>)
    returns (head': nat, chains': seq<Chain>)
    requires SubmitOk(sqes, exec, budget, head, submitted, log, chains) && submitted < budget && head < |sqes| && GoesAsync(sqes[head])
    ensures head < head' && SubmitOk(sqes, exec, budget, head', submitted + 1, log, chains')
  {
    head' := EnqueueChain(sqes, head);
    HandedOver(sqes, exec, budget, head, submitted, log, chains);
    chains' := chains + [Chain(head, head')];
  }

  lemma HandedOver(sqes: seq<Sqe>, exec: nat -> int, budget: nat, head: nat, submitted: nat, log: seq<Done>, chains: seq<Chain>)
    requires SubmitOk(sqes, exec, budget, head, submitted, log, chains) && submitted < budget && head < |sqes| && GoesAsync(sqes[head])
    ensures var end := ChainEnd(sqes, head); SubmitOk(sqes, exec, budget, end, submitted + 1, log, chains + [Chain(head, end)])
  {
    var end := ChainEnd(sqes, head);
    AccountChain(sqes, exec, head, log, chains, end);
    CountChain(sqes, exec, head, end, submitted, log, chains);
    assert end < |sqes| ==> !Cancelled(sqes, exec, end);
  }

  /** A turn that runs a request inline, and cancels the rest of its chain if it fails. */
  method SubmitInline(sqes: seq<Sqe>, exec: nat -> int, budget: nat, head: nat, submitted: nat, log: seq<Done>, ghost chains: seq<Chain>)
    returns (head': nat, submitted': nat, log': seq<Done>)
    requires SubmitOk(sqes, exec, budget, head, submitted, log, chains) && submitted < budget && head < |sqes| && !GoesAsync(sqes[head])
    ensures head < head' && SubmitOk(sqes, exec, budget, head', submitted', log', chains)
  {
    var res := exec(head);
    log' := log + [Done(head, res)];
    head', submitted' := head + 1, submitted + 1;
    if sqes[head].link && res < 0 {
      var more;
      head', submitted', more := CancelRest(sqes, exec, head + 1, submitted + 1, budget);
      RestCancelled(sqes, exec, budget, head, submitted, log, chains, head');
      log' := log' + more;
    } else {
      OneMore(sqes, exec, budget, head, submitted, log, chains);
    }
  }

  lemma OneMore(sqes: seq<Sqe>, exec: nat -> int, budget: nat, head: nat, submitted: nat, log: seq<Done>, chains: seq<Chain>)
    requires SubmitOk(sqes, exec, budget, head, submitted, log, chains) && submitted < budget && head < |sqes| && !GoesAsync(sqes[head])
    requires !(sqes[head].link && exec(head) < 0)
    ensures SubmitOk(sqes, exec, budget, head + 1, submitted + 1, log + [Done(head, exec(head))], chains)
  {
    InlineDone(sqes, exec, head, log, chains);
    CountInline(sqes, exec, head, submitted, log, chains);
  }

  lemma RestCancelled(sqes: seq<Sqe>, exec: nat -> int, budget: nat, head: nat, submitted: nat, log: seq<Done>, chains: seq<Chain>, head': nat)
    requires SubmitOk(sqes, exec, budget, head, submitted, log, chains) && submitted < budget && head < |sqes| && !GoesAsync(sqes[head])
    requires sqes[head].link && exec(head) < 0 && head < head' <= |sqes| && submitted + (head' - head) <= budget
    requires head' < |sqes| && submitted + (head' - head) < budget ==> !Cancelled(sqes, exec, head')
    requires head + 1 < |sqes| ==> head' == if budget - submitted - 1 < ChainEnd(sqes, head + 1) - (head + 1) then head + (budget - submitted) else ChainEnd(sqes, head + 1)
    ensures SubmitOk(sqes, exec, budget, head', submitted + (head' - head),
                     log + [Done(head, exec(head))] + Log(sqes, exec, head + 1, head'), chains)
  {
    var log' := log + [Done(head, exec(head))];
    InlineDone(sqes, exec, head, log, chains);
    CountInline(sqes, exec, head, submitted, log, chains);
    AccountInline(sqes, exec, head + 1, log', chains, head', Log(sqes, exec, head + 1, head'));
    CountRest(sqes, exec, head + 1, head', submitted + 1, log', chains);
    StopAfterCancel(sqes, exec, head, budget - submitted, head');
  }

  lemma InlineDone(sqes: seq<Sqe>, exec: nat -> int, head: nat, log: seq<Done>, chains: seq<Chain>)
    requires head < |sqes| && Accounted(sqes, exec, head, log, chains) && !Cancelled(sqes, exec, head)
    ensures Accounted(sqes, exec, head + 1, log + [Done(head, exec(head))], chains)
  {
    assert [Done(head, exec(head))] == Log(sqes, exec, head, head + 1);
    AccountInline(sqes, exec, head, log, chains, head + 1, [Done(head, exec(head))]);
  }

  lemma StopAfterCancel(sqes: seq<Sqe>, exec: nat -> int, head: nat, left: nat, head': nat)
    requires head < |sqes| && left > 0 && !GoesAsync(sqes[head]) && sqes[head].link && exec(head) < 0
    requires head < head' <= |sqes| && head' - head <= left
    requires head + 1 < |sqes| ==> head' == if left - 1 < ChainEnd(sqes, head + 1) - (head + 1) then head + left else ChainEnd(sqes, head + 1)
    ensures Stop(sqes, exec, head', left - (head' - head)) == Stop(sqes, exec, head, left)
  {
  }

  /** The submit loop of io_uring_enter; `budget` is the caller's to_submit. */
  method Submit(sqes: seq<Sqe>, exec: nat -> int, budget: nat)
    returns (head: nat, submitted: nat, log: seq<Done>, chains: seq<Chain>)
    ensures head <= |sqes| && submitted <= budget && submitted <= head
    ensures Accounted(sqes, exec, head, log, chains)
    ensures head < |sqes| ==> submitted == budget
    ensures head == Stop(sqes, exec, 0, budget) && Counted(sqes, exec, head, submitted, log, chains)
  {
    head, submitted, log, chains := 0, 0, [], [];
    while submitted < budget && head != |sqes|
      invariant SubmitOk(sqes, exec, budget, head, submitted, log, chains)
      decreases |sqes| - head
    {
      if GoesAsync(sqes[head]) {
        head, chains := SubmitAsync(sqes, exec, budget, head, submitted, log, chains);
        submitted := submitted + 1;
      } else {
        head, submitted, log := SubmitInline(sqes, exec, budget, head, submitted, log, chains);
      }
    }
  }

  /** One call and the worker it feeds: every consumed request gets exactly one completion, with
      the result the chain rule gives it, whichever route it took. */
  method Enter(sqes: seq<Sqe>, exec: nat -> int, budget: nat) returns (consumed: nat, log: seq<Done>)
    ensures consumed == Stop(sqes, exec, 0, budget) && multiset(log) == multiset(Log(sqes, exec, 0, consumed))
    ensures |sqes| <= budget ==> consumed == |sqes|
  {
    var submitted, chains;
    consumed, submitted, log, chains := Submit(sqes, exec, budget);
    var more := RunWorker(sqes, exec, chains);
    log := log + more;
  }

  // ---------------------------------------------------------------- routes and budgets

  /** Each request occurs once among the completions. */
  lemma {:induction false} LogHasEachOnce(sqes: seq<Sqe>, exec: nat -> int, stop: nat, i: nat, res: int)
    requires stop <= |sqes|
    ensures multiset(Log(sqes, exec, 0, stop))[Done(i, res)] == if i < stop && res == Result(sqes, exec, i) then 1 else 0
    decreases stop
  {
    if stop > 0 {
      LogHasEachOnce(sqes, exec, stop - 1, i, res);
    }
  }

  lemma {:induction false} SameRule(sqes: seq<Sqe>, other: seq<Sqe>, exec: nat -> int, stop: nat)
    requires |other| == |sqes| && stop <= |sqes|
    requires forall j: nat | j < |sqes| :: other[j].link == sqes[j].link && other[j].hard == sqes[j].hard
    ensures Log(other, exec, 0, stop) == Log(sqes, exec, 0, stop)
    ensures forall j: nat | j < stop :: Cancelled(other, exec, j) == Cancelled(sqes, exec, j)
    decreases stop
  {
    if stop > 0 {
      SameRule(sqes, other, exec, stop - 1);
    }
  }

  /** Two calls on queues that differ only in which requests go to the worker (operation, async and
      sync flags): every request that both consume completes once with the same result. */
  method RouteDoesNotMatter(sqes: seq<Sqe>, other: seq<Sqe>, exec: nat -> int, budget: nat)
    returns (consumed: nat, log: seq<Done>, consumed': nat, log': seq<Done>)
    requires |other| == |sqes|
    requires forall j: nat | j < |sqes| :: other[j].link == sqes[j].link && other[j].hard == sqes[j].hard
    ensures consumed <= |sqes| && consumed' <= |sqes|
    ensures forall i: nat, res: int | i < consumed && i < consumed' ::
              multiset(log)[Done(i, res)] == multiset(log')[Done(i, res)] == if res == Result(sqes, exec, i) then 1 else 0
    ensures |sqes| <= budget ==> consumed == consumed' == |sqes| && multiset(log) == multiset(log')
  {
    consumed, log := Enter(sqes, exec, budget);
    consumed', log' := Enter(other, exec, budget);
    SameRule(sqes, other, exec, |sqes|);
    SameRule(sqes, other, exec, consumed');
    forall i: nat, res: int | i < consumed && i < consumed'
      ensures multiset(log)[Done(i, res)] == multiset(log')[Done(i, res)] == if res == Result(sqes, exec, i) then 1 else 0
    {
      LogHasEachOnce(sqes, exec, consumed, i, res);
      LogHasEachOnce(sqes, exec, consumed', i, res);
    }
  }

  function Shifted(exec: nat -> int, k: nat): nat -> int
  {
    (i: nat) => exec(k + i)
  }

  function ShiftAll(log: seq<Done>, k: nat): (r: seq<Done>)
    ensures |r| == |log|
  {
    if log == [] then [] else ShiftAll(log[..|log| - 1], k) + [Done(log[|log| - 1].i + k, log[|log| - 1].res)]
  }

  /** The log holds one completion for each of the first `n` requests, with the result `r` says. */
  ghost predicate Completes(log: multiset<Done>, n: nat, r: nat -> int)
  {
    forall i: nat, res: int :: log[Done(i, res)] == if i < n && res == r(i) then 1 else 0
  }

  /** A log says of each request what its result was. */
  lemma CompletesIff(log: multiset<Done>, n: nat, r: nat -> int, q: nat -> int)
    requires Completes(log, n, r)
    ensures Completes(log, n, q) <==> forall i: nat | i < n :: r(i) == q(i)
  {
    forall i: nat | i < n
      ensures log[Done(i, r(i))] == 1
    {
    }
  }

  lemma {:induction false} ShiftAllCounts(log: seq<Done>, k: nat, i: nat, res: int)
    ensures multiset(ShiftAll(log, k))[Done(i, res)] == if i < k then 0 else multiset(log)[Done(i - k, res)]
  {
    if log != [] {
      var n := |log| - 1;
      ShiftAllCounts(log[..n], k, i, res);
      assert log == log[..n] + [log[n]];
    }
  }

  function Spliced(r: nat -> int, q: nat -> int, k: nat): nat -> int
  {
    (i: nat) => if i < k then r(i) else q(i - k)
  }

  lemma SpliceCompletes(a: seq<Done>, b: seq<Done>, k: nat, m: nat, r: nat -> int, q: nat -> int)
    requires Completes(multiset(a), k, r) && Completes(multiset(b), m, q)
    ensures Completes(multiset(a + ShiftAll(b, k)), k + m, Spliced(r, q, k))
  {
    var log, s := multiset(a + ShiftAll(b, k)), Spliced(r, q, k);
    forall i: nat, res: int
      ensures log[Done(i, res)] == if i < k + m && res == s(i) then 1 else 0
    {
      ShiftAllCounts(b, k, i, res);
      ConcatCounts(a, ShiftAll(b, k), Done(i, res));
    }
  }

  lemma ConcatCounts(a: seq<Done>, b: seq<Done>, d: Done)
    ensures multiset(a + b)[d] == multiset(a)[d] + multiset(b)[d]
  {
  }

  /** The result of each request by the chain rule. */
  ghost function Results(sqes: seq<Sqe>, exec: nat -> int): nat -> int
  {
    (i: nat) => if i < |sqes| then Result(sqes, exec, i) else 0
  }

  lemma CallCompletes(sqes: seq<Sqe>, exec: nat -> int, k: nat, log: seq<Done>)
    requires k <= |sqes| && multiset(log) == multiset(Log(sqes, exec, 0, k))
    ensures Completes(multiset(log), k, Results(sqes, exec))
  {
    var r := Results(sqes, exec);
    forall i: nat, res: int
      ensures multiset(log)[Done(i, res)] == if i < k && res == r(i) then 1 else 0
    {
      LogHasEachOnce(sqes, exec, k, i, res);
    }
  }

  /** A later call knows nothing of a chain the previous call left in the middle. */
  lemma {:induction false} FreshFrom(sqes: seq<Sqe>, exec: nat -> int, k: nat, i: nat)
    requires k + i < |sqes| && !Cancelled(sqes, exec, k)
    ensures Cancelled(sqes[k..], Shifted(exec, k), i) <==> Cancelled(sqes, exec, k + i)
    decreases i
  {
    if i > 0 { FreshFrom(sqes, exec, k, i - 1); }
  }

  lemma SplicedAgreesIff(sqes: seq<Sqe>, exec: nat -> int, k: nat, m: nat)
    requires k + m <= |sqes| && forall j: nat :: exec(j) != -ECANCELED
    ensures var r, s := Results(sqes, exec), Spliced(Results(sqes, exec), Results(sqes[k..], Shifted(exec, k)), k);
            (forall i: nat | i < k + m :: s(i) == r(i)) <==> m == 0 || !Cancelled(sqes, exec, k)
  {
    var r, q := Results(sqes, exec), Results(sqes[k..], Shifted(exec, k));
    var s := Spliced(r, q, k);
    if m > 0 && Cancelled(sqes, exec, k) {
      assert s(k) == q(0) == exec(k) != r(k);
    } else {
      forall i: nat | i < k + m
        ensures s(i) == r(i)
      {
        if i >= k { FreshFrom(sqes, exec, k, i - k); }
      }
    }
  }

  /** Two calls, the first consuming `k` requests and the second `m`, complete them by the chain
      rule of the whole queue exactly when the first does not stop at a request that is to be
      cancelled, or the second consumes nothing. */
  lemma SplitAgreesIff(sqes: seq<Sqe>, exec: nat -> int, k: nat, m: nat, first: seq<Done>, second: seq<Done>)
    requires k + m <= |sqes| && forall j: nat :: exec(j) != -ECANCELED
    requires Completes(multiset(first), k, Results(sqes, exec))
    requires Completes(multiset(second), m, Results(sqes[k..], Shifted(exec, k)))
    ensures Completes(multiset(first + ShiftAll(second, k)), k + m, Spliced(Results(sqes, exec), Results(sqes[k..], Shifted(exec, k)), k))
    ensures Completes(multiset(first + ShiftAll(second, k)), k + m, Results(sqes, exec)) <==> m == 0 || !Cancelled(sqes, exec, k)
  {
    var r, q := Results(sqes, exec), Results(sqes[k..], Shifted(exec, k));
    SpliceCompletes(first, second, k, m, r, q);
    SplicedAgreesIff(sqes, exec, k, m);
    CompletesIff(multiset(first + ShiftAll(second, k)), k + m, Spliced(r, q, k), r);
  }

  /** One call, request by request. */
  method EnterOnce(sqes: seq<Sqe>, exec: nat -> int, budget: nat) returns (consumed: nat, log: seq<Done>)
    ensures consumed == Stop(sqes, exec, 0, budget) && Completes(multiset(log), consumed, Results(sqes, exec))
    ensures |sqes| <= budget ==> consumed == |sqes|
  {
    consumed, log := Enter(sqes, exec, budget);
    CallCompletes(sqes, exec, consumed, log);
  }

  /** The queue submitted in two calls. */
  method EnterTwice(sqes: seq<Sqe>, exec: nat -> int, budget: nat, budget': nat) returns (k: nat, m: nat, log: seq<Done>)
    requires forall j: nat :: exec(j) != -ECANCELED
    ensures k == Stop(sqes, exec, 0, budget) && k + m <= |sqes| && (|sqes| - k <= budget' ==> k + m == |sqes|)
    ensures Completes(multiset(log), k + m, Spliced(Results(sqes, exec), Results(sqes[k..], Shifted(exec, k)), k))
    ensures Completes(multiset(log), k + m, Results(sqes, exec)) <==> m == 0 || !Cancelled(sqes, exec, k)
    ensures !MayCut(sqes, 0, budget) ==> Completes(multiset(log), k + m, Results(sqes, exec))
  {
    var first, second;
    k, first := EnterOnce(sqes, exec, budget);
    m, second := EnterOnce(sqes[k..], Shifted(exec, k), budget');
    log := first + ShiftAll(second, k);
    SplitAgreesIff(sqes, exec, k, m, first, second);
    if k < |sqes| && Cancelled(sqes, exec, k) { CutNeedsRoom(sqes, exec, 0, budget); }
  }

  // ---------------------------------------------------------------- which budgets can cut a chain

  /** Read off the queue before the call: from request `i` on, with this much of the budget left, a
      failing request can leave the budget to run out before the rest of its chain is cancelled. */
  predicate MayCut(sqes: seq<Sqe>, i: nat, budget: nat)
    requires i <= |sqes|
    decreases |sqes| - i
  {
    && budget > 0 && i < |sqes|
    && var end := ChainEnd(sqes, i);
      if GoesAsync(sqes[i]) then MayCut(sqes, end, budget - 1)
      else
        || MayCut(sqes, i + 1, budget - 1)
        || (sqes[i].link && (budget < end - i || MayCut(sqes, end, budget - (end - i))))
  }

  /** A call that stops at a request to be cancelled had such a budget. */
  lemma {:induction false} CutNeedsRoom(sqes: seq<Sqe>, exec: nat -> int, i: nat, budget: nat)
    requires i <= |sqes| && (i < |sqes| ==> !Cancelled(sqes, exec, i))
    requires var k := Stop(sqes, exec, i, budget); k < |sqes| && Cancelled(sqes, exec, k)
    ensures MayCut(sqes, i, budget)
    decreases |sqes| - i
  {
    var end := ChainEnd(sqes, i);
    if GoesAsync(sqes[i]) {
      CutNeedsRoom(sqes, exec, end, budget - 1);
    } else if sqes[i].link && exec(i) < 0 {
      if end - i <= budget { CutNeedsRoom(sqes, exec, end, budget - (end - i)); }
    } else {
      CutNeedsRoom(sqes, exec, i + 1, budget - 1);
    }
  }

  lemma {:induction false} NoFailureNoCancel(sqes: seq<Sqe>, exec: nat -> int, i: nat)
    requires i < |sqes| && forall j: nat | j < i :: exec(j) >= 0
    ensures !Cancelled(sqes, exec, i)
    decreases i
  {
    if i > 0 { NoFailureNoCancel(sqes, exec, i - 1); }
  }

  lemma {:induction false} StopReadsAhead(sqes: seq<Sqe>, exec: nat -> int, exec': nat -> int, i: nat, budget: nat)
    requires i <= |sqes| && forall j: nat | j >= i :: exec'(j) == exec(j)
    ensures Stop(sqes, exec', i, budget) == Stop(sqes, exec, i, budget)
    decreases |sqes| - i
  {
    if budget > 0 && i < |sqes| {
      var end := ChainEnd(sqes, i);
      if GoesAsync(sqes[i]) {
        StopReadsAhead(sqes, exec, exec', end, budget - 1);
      } else if sqes[i].link && exec(i) < 0 {
        if end - i <= budget { StopReadsAhead(sqes, exec, exec', end, budget - (end - i)); }
      } else {
        StopReadsAhead(sqes, exec, exec', i + 1, budget - 1);
      }
    }
  }

  /** Behind the end of a chain nothing depends on it. */
  lemma {:induction false} CancelReadsChain(sqes: seq<Sqe>, exec: nat -> int, exec': nat -> int, end: nat, k: nat)
    requires 0 < end <= k < |sqes| && !Linked(sqes[end - 1]) && forall j: nat | j >= end :: exec'(j) == exec(j)
    ensures Cancelled(sqes, exec', k) == Cancelled(sqes, exec, k)
    decreases k
  {
    if k > end { CancelReadsChain(sqes, exec, exec', end, k - 1); }
  }

  /** The rest of a chain behind a failed link is cancelled. */
  lemma {:induction false} RestIsCancelled(sqes: seq<Sqe>, exec: nat -> int, i: nat, k: nat)
    requires i < |sqes| && i < k < ChainEnd(sqes, i) && sqes[i].link && exec(i) < 0
    ensures Cancelled(sqes, exec, k)
    decreases k
  {
    if k > i + 1 { RestIsCancelled(sqes, exec, i, k - 1); }
  }

  /** Wherever a budget can cut a chain, some outcome of the requests makes it do so. */
  lemma {:induction false} CutHappens(sqes: seq<Sqe>, i: nat, budget: nat) returns (exec: nat -> int)
    requires i <= |sqes| && MayCut(sqes, i, budget)
    ensures (forall j: nat :: -1 <= exec(j) <= 0) && forall j: nat | j < i :: exec(j) == 0
    ensures var k := Stop(sqes, exec, i, budget); k < |sqes| && Cancelled(sqes, exec, k)
    decreases |sqes| - i
  {
    var end := ChainEnd(sqes, i);
    if GoesAsync(sqes[i]) {
      exec := CutHappens(sqes, end, budget - 1);
    } else if MayCut(sqes, i + 1, budget - 1) {
      exec := CutHappens(sqes, i + 1, budget - 1);
    } else if budget < end - i {
      exec := (j: nat) => if j == i then -1 else 0;
      RestIsCancelled(sqes, exec, i, i + budget);
    } else {
      var later := CutHappens(sqes, end, budget - (end - i));
      exec := CutLater(sqes, i, budget, later);
    }
  }

  /** The request at `i` fails and its chain fits into the budget; the cut comes later. */
  lemma CutLater(sqes: seq<Sqe>, i: nat, budget: nat, later: nat -> int) returns (exec: nat -> int)
    requires i < |sqes| && !GoesAsync(sqes[i]) && sqes[i].link && ChainEnd(sqes, i) - i <= budget
    requires (forall j: nat :: -1 <= later(j) <= 0) && forall j: nat | j < ChainEnd(sqes, i) :: later(j) == 0
    requires var k := Stop(sqes, later, ChainEnd(sqes, i), budget - (ChainEnd(sqes, i) - i)); k < |sqes| && Cancelled(sqes, later, k)
    ensures (forall j: nat :: -1 <= exec(j) <= 0) && forall j: nat | j < i :: exec(j) == 0
    ensures var k := Stop(sqes, exec, i, budget); k < |sqes| && Cancelled(sqes, exec, k)
  {
    var end := ChainEnd(sqes, i);
    exec := (j: nat) => if j == i then -1 else later(j);
    StopReadsAhead(sqes, later, exec, end, budget - (end - i));
    CancelReadsChain(sqes, later, exec, end, Stop(sqes, later, end, budget - (end - i)));
  }

  /** Exactly these budgets can cut a chain. */
  lemma BudgetCutsIff(sqes: seq<Sqe>, budget: nat)
    ensures MayCut(sqes, 0, budget) <==>
            exists exec: nat -> int :: CutBy(sqes, exec, budget)
  {
    if MayCut(sqes, 0, budget) {
      var exec := CutHappens(sqes, 0, budget);
      assert CutBy(sqes, exec, budget);
    }
    if exec: nat -> int :| CutBy(sqes, exec, budget) {
      CutNeedsRoom(sqes, exec, 0, budget);
    }
  }

  ghost predicate CutBy(sqes: seq<Sqe>, exec: nat -> int, budget: nat)
  {
    var k := Stop(sqes, exec, 0, budget);
    (forall j: nat :: exec(j) != -ECANCELED) && k < |sqes| && Cancelled(sqes, exec, k)
  }

  /** A failed link and its dependant: one call cancels the dependant, two calls of one request each
      run it. */
  method BudgetCutsAChain() returns (one: seq<Done>, two: seq<Done>)
    ensures multiset(one)[Done(0, -5)] == 1 && multiset(one)[Done(1, -ECANCELED)] == 1 && multiset(one)[Done(1, 0)] == 0
    ensures multiset(two)[Done(0, -5)] == 1 && multiset(two)[Done(1, -ECANCELED)] == 0 && multiset(two)[Done(1, 0)] == 1
  {
    var sqes := [Sqe(0, true, false, false, false), Sqe(0, false, false, false, false)];
    var exec := (i: nat) => if i == 0 then -5 else 0;
    assert !Cancelled(sqes, exec, 0) && Cancelled(sqes, exec, 1) && !Cancelled(sqes[1..], Shifted(exec, 1), 0);
    assert Stop(sqes, exec, 0, 1) == 1;
    var k, m;
    k, one := EnterOnce(sqes, exec, 2);
    k, m, two := EnterTwice(sqes, exec, 1, 1);
  }
}
