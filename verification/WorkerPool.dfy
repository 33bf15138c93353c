/** Chains of background work, with threads as interleaved steps
    (src/python/pants/base/worker_pool.py). */
module WorkerPools {
  import opened Wrappers

  /** A submitted chain. Its works are given by their numbers of invocations; the current one
      has `left` invocations running. `succeeded` counts, per work, invocations that returned.
      A call of `done` runs the hook and then, separately, decrements the pool's counter. */
  datatype Chain = Chain(
    works: seq<nat>,
    current: nat,
    submitting: bool,
    left: nat,
    failures: nat,
    succeeded: seq<nat>,
    hooks: nat,
    decrements: nat,
    refused: bool,
    lost: bool)
  {
    /** How often `done` was called: at the end of the chain or when its first submission is
        refused, and for every failure. */
    function Dones(): nat {
      (if refused || (current == |works| && !submitting) then 1 else 0) + failures
    }

    /** The chain may still hand work to the pool. */
    predicate CanSubmit() {
      submitting || (left > 0 && failures == 0)
    }

    /** No step of the chain remains. */
    predicate AtRest() {
      !submitting && left == 0 && hooks == Dones() && decrements == hooks
    }

    ghost predicate Valid() {
      && current <= |works| == |succeeded|
      && decrements <= hooks <= Dones()
      && (forall k :: 0 <= k < current ==> succeeded[k] == works[k])
      && (forall k :: current < k < |works| ==> succeeded[k] == 0)
      && (current == |works| ==> left == 0 && failures == 0)
      && (submitting ==> left == 0 && failures == 0 && !lost && !refused)
      && !(lost && refused)
      && (lost || refused ==> left == 0 && failures == 0 && current < |works| && works[current] > 0)
      && (current < |works| && !submitting && !lost && !refused ==>
            succeeded[current] + failures + left == works[current] && (left == 0 ==> failures > 0))
      && (current < |works| && (submitting || refused || lost) ==> succeeded[current] == 0)
    }
  }

  datatype Pool = Pool(pending: int, closed: bool, chains: seq<Chain>)

  const START := Pool(0, false, [])

  function Zeros(n: nat): seq<nat> {
    seq(n, i => 0)
  }

  /** The next work with invocations, at or after `k`; empty works succeed at once. */
  function NextWork(works: seq<nat>, k: nat): (r: nat)
    requires k <= |works|
    ensures k <= r <= |works| && (r < |works| ==> works[r] > 0) && forall i :: k <= i < r ==> works[i] == 0
    decreases |works| - k
  {
    if k == |works| || works[k] > 0 then k else NextWork(works, k + 1)
  }

  // ---- The steps ------------------------------------------------------------------------------

  /** What a chain can do next: submit its next work, have an invocation return or raise, run
      the hook of a call of `done`, or decrement the counter in it. */
  datatype Move = SubmitNext | Succeed | Fail | RunHook | Decrement

  datatype Step = Register(works: seq<nat>) | Act(id: nat, move: Move) | Close

  predicate CanMove(c: Chain, m: Move) {
    match m
    case SubmitNext => c.submitting && c.current <= |c.works|
    case Succeed => c.left > 0 && c.current < |c.succeeded|
    case Fail => c.left > 0
    case RunHook => c.hooks < c.Dones()
    case Decrement => c.decrements < c.hooks
  }

  /** Whether the step can be taken. Shutting down waits while the counter is positive. */
  predicate Enabled(p: Pool, s: Step) {
    match s
    case Register(works) => true
    case Act(id, m) => id < |p.chains| && CanMove(p.chains[id], m)
    case Close => !p.closed && p.pending <= 0
  }

  function Registered(works: seq<nat>): Chain {
    Chain(works, 0, true, 0, 0, Zeros(|works|), 0, 0, false, false)
  }

  /** A chain's next submission. A closed pool takes no work: a first submission that raises
      calls `done`, a later one, made by the pool's result handler, goes unnoticed. */
  function Submitted(c: Chain, closed: bool): Chain
    requires CanMove(c, SubmitNext)
  {
    var k := NextWork(c.works, c.current);
    if k == |c.works| then c.(current := k, submitting := false)
    else if closed then c.(current := k, submitting := false, refused := c.current == 0, lost := c.current != 0)
    else c.(current := k, submitting := false, left := c.works[k])
  }

  /** One invocation returned; the last of a work without failures submits the next. */
  function Returned(c: Chain): Chain
    requires CanMove(c, Succeed)
  {
    var c' := c.(left := c.left - 1, succeeded := c.succeeded[c.current := c.succeeded[c.current] + 1]);
    if c'.left == 0 && c'.failures == 0 then c'.(submitting := true, current := c.current + 1) else c'
  }

  /** The chain after a move. An invocation that raised calls `done`, and the chain will submit
      nothing more. */
  function Moved(c: Chain, closed: bool, m: Move): Chain
    requires CanMove(c, m)
  {
    match m
    case SubmitNext => Submitted(c, closed)
    case Succeed => Returned(c)
    case Fail => c.(left := c.left - 1, failures := c.failures + 1)
    case RunHook => c.(hooks := c.hooks + 1)
    case Decrement => c.(decrements := c.decrements + 1)
  }

  function Next(p: Pool, s: Step): Pool
    requires Enabled(p, s)
  {
    match s
    case Register(works) => p.(pending := p.pending + 1, chains := p.chains + [Registered(works)])
    case Act(id, m) =>
      p.(pending := if m.Decrement? then p.pending - 1 else p.pending,
         chains := p.chains[id := Moved(p.chains[id], p.closed, m)])
    case Close => p.(closed := true)
  }

  // ---- What every step keeps ------------------------------------------------------------------

  function Decrements(chains: seq<Chain>): nat {
    if chains == [] then 0 else Decrements(chains[..|chains| - 1]) + chains[|chains| - 1].decrements
  }

  lemma {:induction false} DecrementsUpdate(chains: seq<Chain>, i: nat, c: Chain)
    requires i < |chains|
    ensures Decrements(chains[i := c]) == Decrements(chains) - chains[i].decrements + c.decrements
  {
    var last := |chains| - 1;
    if i < last {
      DecrementsUpdate(chains[..last], i, c);
      assert chains[i := c][..last] == chains[..last][i := c];
    } else {
      assert chains[i := c][..last] == chains[..last];
    }
  }

  /** The counter is the number of chains less the calls of `done` that got to decrement, and
      only a closed pool loses work. */
  ghost predicate Valid(p: Pool) {
    && p.pending == |p.chains| - Decrements(p.chains)
    && forall c :: c in p.chains ==> c.Valid() && (c.lost ==> p.closed)
  }

  /** A move keeps a chain consistent, and takes back no failure, call of `done` or decrement. */
  lemma MovedValid(c: Chain, closed: bool, m: Move)
    requires c.Valid() && (c.lost ==> closed) && CanMove(c, m)
    ensures Moved(c, closed, m).Valid() && (Moved(c, closed, m).lost ==> closed)
    ensures Moved(c, closed, m).decrements == if m.Decrement? then c.decrements + 1 else c.decrements
    ensures Moved(c, closed, m).failures == if m.Fail? then c.failures + 1 else c.failures
    ensures c.Dones() <= Moved(c, closed, m).Dones()
  {
  }

  lemma ActValid(p: Pool, id: nat, m: Move)
    requires Valid(p) && Enabled(p, Act(id, m))
    ensures Valid(Next(p, Act(id, m)))
  {
    var c := Moved(p.chains[id], p.closed, m);
    assert p.chains[id] in p.chains;
    MovedValid(p.chains[id], p.closed, m);
    DecrementsUpdate(p.chains, id, c);
    forall d | d in p.chains[id := c]
      ensures d.Valid() && (d.lost ==> p.closed)
    {
      assert d == c || d in p.chains;
    }
  }

  lemma RegisterValid(p: Pool, works: seq<nat>)
    requires Valid(p)
    ensures Valid(Next(p, Register(works)))
  {
    var c := Registered(works);
    assert (p.chains + [c])[..|p.chains|] == p.chains;
    assert c.Valid();
  }

  lemma StepValid(p: Pool, s: Step)
    requires Valid(p) && Enabled(p, s)
    ensures Valid(Next(p, s))
  {
    match s
    case Register(works) => RegisterValid(p, works);
    case Act(id, m) => ActValid(p, id, m);
    case Close =>
  }

  // ---- Whole runs -----------------------------------------------------------------------------

  /** The pool after a run of steps from `p`, if each could be taken. */
  function After(p: Pool, steps: seq<Step>): Option<Pool>
    decreases |steps|
  {
    if steps == [] then Some(p)
    else
      var q := After(p, steps[..|steps| - 1]);
      var s := steps[|steps| - 1];
      if q.Some? && Enabled(q.value, s) then Some(Next(q.value, s)) else None
  }

  /** Some interleaving leads from `p` to `q`. */
  ghost predicate Leads(p: Pool, q: Pool) {
    exists steps :: After(p, steps) == Some(q)
  }

  ghost predicate Reachable(p: Pool) {
    Leads(START, p)
  }

  lemma LeadsRefl(p: Pool)
    ensures Leads(p, p)
  {
    assert After(p, []) == Some(p);
  }

  lemma LeadsStep(p: Pool, q: Pool, s: Step)
    requires Leads(p, q) && Enabled(q, s)
    ensures Leads(p, Next(q, s))
  {
    var steps :| After(p, steps) == Some(q);
    assert (steps + [s])[..|steps|] == steps;
    assert After(p, steps + [s]) == Some(Next(q, s));
  }

  lemma {:induction false} AfterTrans(p: Pool, q: Pool, steps: seq<Step>)
    requires Leads(p, q) && After(q, steps).Some?
    ensures Leads(p, After(q, steps).value)
    decreases |steps|
  {
    if steps != [] {
      AfterTrans(p, q, steps[..|steps| - 1]);
      LeadsStep(p, After(q, steps[..|steps| - 1]).value, steps[|steps| - 1]);
    }
  }

  lemma LeadsTrans(p: Pool, q: Pool, r: Pool)
    requires Leads(p, q) && Leads(q, r)
    ensures Leads(p, r)
  {
    var steps :| After(q, steps) == Some(r);
    AfterTrans(p, q, steps);
  }

  /** In every interleaving: the counter is exact, and when a work of a chain runs, all
      invocations of the earlier works have succeeded and none of the later ones has begun. */
  lemma {:induction false} RunValid(steps: seq<Step>)
    requires After(START, steps).Some?
    ensures Valid(After(START, steps).value)
    decreases |steps|
  {
    if steps != [] {
      RunValid(steps[..|steps| - 1]);
      StepValid(After(START, steps[..|steps| - 1]).value, steps[|steps| - 1]);
    }
  }

  lemma ReachableValid(p: Pool)
    requires Reachable(p)
    ensures Valid(p)
  {
    var steps :| After(START, steps) == Some(p);
    RunValid(steps);
  }

  function WorksOf(chains: seq<Chain>): seq<seq<nat>> {
    seq(|chains|, i requires 0 <= i < |chains| => chains[i].works)
  }

  /** The chains that were registered, in order. */
  function Submissions(steps: seq<Step>): seq<seq<nat>> {
    if steps == [] then []
    else Submissions(steps[..|steps| - 1]) + match steps[|steps| - 1] case Register(works) => [works] case _ => []
  }

  lemma NextWorks(p: Pool, s: Step)
    requires Enabled(p, s)
    ensures WorksOf(Next(p, s).chains) == WorksOf(p.chains) + match s case Register(works) => [works] case _ => []
  {
  }

  /** In every interleaving, the pool's chains have the works they were registered with. */
  lemma {:induction false} RunWorks(steps: seq<Step>)
    requires After(START, steps).Some?
    ensures WorksOf(After(START, steps).value.chains) == Submissions(steps)
    decreases |steps|
  {
    if steps != [] {
      RunWorks(steps[..|steps| - 1]);
      NextWorks(After(START, steps[..|steps| - 1]).value, steps[|steps| - 1]);
    }
  }

  lemma NoEarlyStart(p: Pool, id: nat)
    requires Reachable(p) && id < |p.chains| && p.chains[id].left > 0
    ensures var c := p.chains[id];
            && c.current < |c.works| == |c.succeeded|
            && forall k :: 0 <= k < |c.works| && k != c.current ==>
                 c.succeeded[k] == if k < c.current then c.works[k] else 0
  {
    ReachableValid(p);
    assert p.chains[id] in p.chains;
  }

  // ---- How often the hook runs ----------------------------------------------------------------

  lemma ChainAtRest(c: Chain)
    requires c.Valid() && c.AtRest()
    ensures c.hooks == if c.lost then 0 else if c.failures == 0 then 1 else c.failures
    ensures c.failures == 0 && !c.refused && !c.lost <==> c.succeeded == c.works
  {
    if c.current < |c.works| {
      assert c.succeeded[c.current] != c.works[c.current];
    }
  }

  /** A chain at rest has run its hook, and decremented the counter, once for every failure, and
      once if there was none; never, if the closed pool lost its next work. */
  lemma HooksAtRest(p: Pool, id: nat)
    requires Reachable(p) && id < |p.chains| && p.chains[id].AtRest()
    ensures var c := p.chains[id];
            && c.decrements == c.hooks == (if c.lost then 0 else if c.failures == 0 then 1 else c.failures)
            && (c.hooks == 1 <==> c.failures <= 1 && !c.lost)
            && (c.failures == 0 && !c.refused && !c.lost <==> c.succeeded == c.works)
  {
    ReachableValid(p);
    assert p.chains[id] in p.chains;
    ChainAtRest(p.chains[id]);
  }

  ghost predicate AtMostOneFailure(p: Pool) {
    forall c :: c in p.chains ==> c.failures <= 1
  }

  lemma {:induction false} DecrementsBound(chains: seq<Chain>)
    requires forall c :: c in chains ==> c.decrements <= 1
    ensures Decrements(chains) <= |chains|
    ensures Decrements(chains) == |chains| ==> forall c :: c in chains ==> c.decrements == 1
  {
    if chains != [] {
      var front, last := chains[..|chains| - 1], chains[|chains| - 1];
      assert chains == front + [last];
      DecrementsBound(front);
    }
  }

  /** In every interleaving in which no chain saw two failures, shutdown closes the pool only
      when no registered chain can still submit work. */
  lemma CloseIsSafe(p: Pool)
    requires Reachable(p) && AtMostOneFailure(p) && Enabled(p, Close)
    ensures p.pending == 0
    ensures forall c :: c in p.chains ==> !c.CanSubmit() && c.hooks == 1
  {
    ReachableValid(p);
    forall c | c in p.chains
      ensures c.Dones() <= 1
    {
      assert c.Valid();
    }
    DecrementsBound(p.chains);
    forall c | c in p.chains
      ensures !c.CanSubmit() && c.hooks == 1
    {
      assert c.Valid() && c.decrements == 1;
    }
  }

  /** The chain lost no work, and after the pool is closed can only submit for the first time. */
  predicate Unstranded(c: Chain, closed: bool) {
    !c.lost && (closed && c.CanSubmit() ==> c.submitting && c.current == 0)
  }

  ghost predicate NoneStranded(p: Pool) {
    forall c :: c in p.chains ==> Unstranded(c, p.closed)
  }

  /** Failures are never taken back. */
  lemma FailuresGrow(p: Pool, s: Step)
    requires Valid(p) && Enabled(p, s) && AtMostOneFailure(Next(p, s))
    ensures AtMostOneFailure(p)
  {
    var q := Next(p, s);
    if s.Act? {
      assert p.chains[s.id] in p.chains;
      MovedValid(p.chains[s.id], p.closed, s.move);
    }
    forall c | c in p.chains
      ensures c.failures <= 1
    {
      var j :| 0 <= j < |p.chains| && p.chains[j] == c;
      assert q.chains[j] in q.chains;
    }
  }

  lemma MovedStranded(c: Chain, closed: bool, m: Move)
    requires c.Valid() && CanMove(c, m) && Unstranded(c, closed)
    ensures Unstranded(Moved(c, closed, m), closed)
  {
  }

  lemma StepStranded(p: Pool, s: Step)
    requires Valid(p) && NoneStranded(p) && Enabled(p, s)
    requires s.Close? ==> forall c :: c in p.chains ==> !c.CanSubmit()
    ensures NoneStranded(Next(p, s))
  {
    if s.Act? {
      var c := p.chains[s.id];
      assert c in p.chains;
      MovedStranded(c, p.closed, s.move);
      assert forall d :: d in Next(p, s).chains ==> d == Moved(c, p.closed, s.move) || d in p.chains;
    }
  }

  lemma {:induction false} RunStranded(steps: seq<Step>)
    requires After(START, steps).Some? && AtMostOneFailure(After(START, steps).value)
    ensures NoneStranded(After(START, steps).value)
    decreases |steps|
  {
    if steps != [] {
      var front, s := steps[..|steps| - 1], steps[|steps| - 1];
      var p := After(START, front).value;
      RunValid(front);
      FailuresGrow(p, s);
      RunStranded(front);
      if s.Close? {
        CloseIsSafe(p);
      }
      StepStranded(p, s);
    }
  }

  /** In every interleaving in which no chain saw two failures, no work is lost. */
  lemma NoneLost(p: Pool)
    requires Reachable(p) && AtMostOneFailure(p)
    ensures forall c :: c in p.chains ==> !c.lost
  {
    var steps :| After(START, steps) == Some(p);
    RunStranded(steps);
  }

  /** In every interleaving in which no chain saw two failures, every chain that came to rest,
      however it ended, has run its hook and decremented the counter exactly once. */
  lemma HookRunsOnce(p: Pool, id: nat)
    requires Reachable(p) && AtMostOneFailure(p) && id < |p.chains| && p.chains[id].AtRest()
    ensures p.chains[id].hooks == p.chains[id].decrements == 1
  {
    NoneLost(p);
    HooksAtRest(p, id);
    assert p.chains[id] in p.chains;
  }

  // ---- When shutdown is safe ------------------------------------------------------------------

  /** Chains whose `done` has not decremented the counter, and decrements beyond the first. */
  function Open(chains: seq<Chain>): nat {
    if chains == [] then 0
    else Open(chains[..|chains| - 1]) + (if chains[|chains| - 1].decrements == 0 then 1 else 0)
  }

  function Excess(chains: seq<Chain>): nat {
    if chains == [] then 0
    else Excess(chains[..|chains| - 1]) + (var d := chains[|chains| - 1].decrements; if d == 0 then 0 else d - 1)
  }

  lemma {:induction false} Balance(chains: seq<Chain>)
    ensures |chains| - Decrements(chains) == Open(chains) - Excess(chains)
  {
    if chains != [] {
      Balance(chains[..|chains| - 1]);
    }
  }

  /** In every interleaving, with any number of failures: shutdown stops waiting exactly when
      the surplus decrements make up for the chains that are still open. */
  lemma CloseExactly(p: Pool)
    requires Reachable(p) && !p.closed
    ensures Enabled(p, Close) <==> Open(p.chains) <= Excess(p.chains)
  {
    ReachableValid(p);
    Balance(p.chains);
  }

  /** Every chain of `p` has got on in `q`, and none to a second failure. */
  ghost predicate GotOn(p: Pool, q: Pool) {
    |q.chains| == |p.chains| &&
    forall j :: 0 <= j < |p.chains| ==>
      && p.chains[j].decrements <= q.chains[j].decrements
      && p.chains[j].Dones() <= q.chains[j].Dones()
      && (q.chains[j].failures >= 2 ==> p.chains[j].failures >= 2)
  }

  ghost predicate Follows(p: Pool, steps: seq<Step>, q: Pool) {
    After(p, steps) == Some(q) && Valid(q) && !q.closed && GotOn(p, q)
  }

  /** Some run leads from `p` to `q` with the same chains, still open; nothing got a second
      failure. */
  ghost predicate Onward(p: Pool, q: Pool) {
    exists steps :: Follows(p, steps, q)
  }

  lemma OnwardIs(p: Pool, q: Pool)
    ensures Onward(p, q) <==> Leads(p, q) && Valid(q) && !q.closed && GotOn(p, q)
  {
    if Leads(p, q) && Valid(q) && !q.closed && GotOn(p, q) {
      var steps :| After(p, steps) == Some(q);
      assert Follows(p, steps, q);
    }
  }

  lemma OnwardRefl(p: Pool)
    requires Valid(p) && !p.closed
    ensures Onward(p, p)
  {
    LeadsRefl(p);
    OnwardIs(p, p);
  }

  lemma OnwardTrans(p: Pool, q: Pool, r: Pool)
    requires Onward(p, q) && Onward(q, r)
    ensures Onward(p, r)
  {
    OnwardIs(p, q);
    OnwardIs(q, r);
    LeadsTrans(p, q, r);
    OnwardIs(p, r);
  }

  lemma OnwardMove(p: Pool, id: nat, m: Move)
    requires Valid(p) && !p.closed && Enabled(p, Act(id, m)) && (m.Fail? ==> p.chains[id].failures == 0)
    ensures Onward(p, Next(p, Act(id, m)))
  {
    assert p.chains[id] in p.chains;
    MovedValid(p.chains[id], p.closed, m);
    ActValid(p, id, m);
    LeadsRefl(p);
    LeadsStep(p, p, Act(id, m));
    OnwardIs(p, Next(p, Act(id, m)));
  }

  /** A chain in an open pool can come to call `done`. */
  lemma ReachDone(p: Pool, id: nat) returns (q: Pool)
    requires Valid(p) && !p.closed && id < |p.chains|
    ensures Onward(p, q) && q.chains[id].Dones() > 0
  {
    assert p.chains[id] in p.chains && p.chains[id].Valid();
    q := p;
    OnwardRefl(p);
    if p.chains[id].submitting {
      OnwardMove(p, id, SubmitNext);
      q := Next(p, Act(id, SubmitNext));
      OnwardIs(p, q);
    }
    assert q.chains[id] in q.chains && q.chains[id].Valid();
    if q.chains[id].Dones() == 0 {
      var r := Next(q, Act(id, Fail));
      OnwardMove(q, id, Fail);
      OnwardTrans(p, q, r);
      q := r;
    }
  }

  /** A pending call of `done` can run through to its decrement. */
  lemma CallDone(p: Pool, id: nat)
    requires Valid(p) && !p.closed && id < |p.chains| && p.chains[id].decrements < p.chains[id].Dones()
    ensures exists q :: Onward(p, q) && id < |q.chains| && q.chains[id].decrements > p.chains[id].decrements
  {
    assert p.chains[id] in p.chains && p.chains[id].Valid();
    var q := p;
    OnwardRefl(p);
    if p.chains[id].decrements == p.chains[id].hooks {
      OnwardMove(p, id, RunHook);
      q := Next(p, Act(id, RunHook));
      OnwardIs(p, q);
    }
    OnwardMove(q, id, Decrement);
    OnwardTrans(p, q, Next(q, Act(id, Decrement)));
  }

  lemma {:induction false} Drain(p: Pool, id: nat, n: nat)
    requires Valid(p) && !p.closed && id < |p.chains| && n <= p.chains[id].Dones()
    ensures exists q :: Onward(p, q) && id < |q.chains| && q.chains[id].decrements >= n
    decreases n - p.chains[id].decrements
  {
    if n <= p.chains[id].decrements {
      OnwardRefl(p);
    } else {
      CallDone(p, id);
      var r :| Onward(p, r) && id < |r.chains| && r.chains[id].decrements > p.chains[id].decrements;
      OnwardIs(p, r);
      Drain(r, id, n);
      var q :| Onward(r, q) && id < |q.chains| && q.chains[id].decrements >= n;
      OnwardTrans(p, r, q);
    }
  }

  ghost predicate Drained(p: Pool, k: nat) {
    forall j :: 0 <= j < k && j < |p.chains| ==> p.chains[j].decrements >= 1
  }

  lemma DrainedKept(p: Pool, q: Pool, k: nat)
    requires GotOn(p, q) && k < |p.chains| && Drained(p, k) && q.chains[k].decrements >= 1
    ensures Drained(q, k + 1)
  {
  }

  /** All chains can come to decrement the counter. */
  lemma {:induction false} DrainAll(p: Pool, k: nat) returns (q: Pool)
    requires Valid(p) && !p.closed && k <= |p.chains| && Drained(p, k)
    ensures Onward(p, q) && Drained(q, |p.chains|)
    decreases |p.chains| - k
  {
    if k == |p.chains| {
      q := p;
      OnwardRefl(p);
    } else {
      var r := ReachDone(p, k);
      OnwardIs(p, r);
      Drain(r, k, 1);
      var r' :| Onward(r, r') && k < |r'.chains| && r'.chains[k].decrements >= 1;
      OnwardTrans(p, r, r');
      OnwardIs(p, r');
      DrainedKept(p, r', k);
      q := DrainAll(r', k + 1);
      OnwardTrans(p, r', q);
    }
  }

  lemma {:induction false} DecrementsAbove(chains: seq<Chain>)
    requires forall j :: 0 <= j < |chains| ==> chains[j].decrements >= 1
    ensures Decrements(chains) >= |chains|
    ensures forall j :: 0 <= j < |chains| && chains[j].decrements >= 2 ==> Decrements(chains) > |chains|
  {
    if chains != [] {
      var front := chains[..|chains| - 1];
      DecrementsAbove(front);
      forall j | 0 <= j < |chains| && chains[j].decrements >= 2
        ensures Decrements(chains) > |chains|
      {
        assert j < |front| ==> front[j].decrements >= 2;
      }
    }
  }

  /** The chains that have seen two failures in `q` had seen them in `p`. */
  ghost predicate NoNewDouble(p: Pool, q: Pool) {
    forall j :: 0 <= j < |q.chains| && q.chains[j].failures >= 2 ==> j < |p.chains| && p.chains[j].failures >= 2
  }

  /** Shutdown may close the pool although a chain can still submit work. */
  ghost predicate ClosesEarly(q: Pool) {
    Enabled(q, Close) && exists c :: c in q.chains && c.CanSubmit()
  }

  lemma CounterAhead(q: Pool, id: nat)
    requires Valid(q) && Drained(q, |q.chains|) && id < |q.chains| && q.chains[id].decrements >= 2
    ensures q.pending < 0
  {
    DecrementsAbove(q.chains);
  }

  /** Two failures in one chain can make the counter negative, whatever else has happened. */
  lemma RunsAhead(p: Pool, id: nat)
    requires Reachable(p) && !p.closed && id < |p.chains| && p.chains[id].failures >= 2
    ensures exists q :: Onward(p, q) && q.pending < 0
  {
    ReachableValid(p);
    Drain(p, id, 2);
    var q :| Onward(p, q) && id < |q.chains| && q.chains[id].decrements >= 2;
    OnwardIs(p, q);
    var r := DrainAll(q, 0);
    OnwardIs(q, r);
    OnwardTrans(p, q, r);
    CounterAhead(r, id);
  }

  /** From there the pool can come to be closed while another chain waits to submit its work. */
  lemma TwoFailuresCloseEarly(p: Pool, id: nat)
    requires Reachable(p) && !p.closed && id < |p.chains| && p.chains[id].failures >= 2
    ensures exists q :: Leads(p, q) && NoNewDouble(p, q) && ClosesEarly(q)
  {
    RunsAhead(p, id);
    var q :| Onward(p, q) && q.pending < 0;
    OnwardIs(p, q);
    LeadsStep(p, q, Register([1]));
    var r := Next(q, Register([1]));
    assert r.chains[|q.chains|] in r.chains;
    assert ClosesEarly(r);
    assert NoNewDouble(p, r);
  }

  /** A chain of two works of which the second was lost. */
  const CUT := Chain([1, 1], 1, false, 0, 0, [1, 0], 0, 0, false, true)

  ghost predicate Loses(q: Pool) {
    exists c :: c in q.chains && c.lost
  }

  lemma CutShort()
    ensures var c := Submitted(Registered([1, 1]), false);
            CanMove(c, Succeed) && CanMove(Returned(c), SubmitNext) && Submitted(Returned(c), true) == CUT
  {
    assert Zeros(2)[0 := 1] == [1, 0];
  }

  /** A chain of two works has started its first. */
  function Started(q: Pool): Pool {
    q.(pending := q.pending + 1, chains := q.chains + [Submitted(Registered([1, 1]), false)])
  }

  lemma StartLate(q: Pool)
    requires !q.closed
    ensures Leads(q, Started(q))
  {
    var n := |q.chains|;
    LeadsRefl(q);
    LeadsStep(q, q, Register([1, 1]));
    var q1 := Next(q, Register([1, 1]));
    LeadsStep(q, q1, Act(n, SubmitNext));
    assert Next(q1, Act(n, SubmitNext)).chains == Started(q).chains;
  }

  /** When the counter is negative, the pool can be closed under a chain that runs. */
  lemma LoseLate(q: Pool)
    requires !q.closed && q.pending < 0
    ensures Leads(q, Pool(q.pending + 1, true, q.chains + [CUT]))
  {
    var n := |q.chains|;
    CutShort();
    StartLate(q);
    LeadsStep(q, Started(q), Close);
    var q3 := Next(Started(q), Close);
    LeadsStep(q, q3, Act(n, Succeed));
    var q4 := Next(q3, Act(n, Succeed));
    LeadsStep(q, q4, Act(n, SubmitNext));
    assert Next(q4, Act(n, SubmitNext)).chains == q.chains + [CUT];
  }

  /** From there, too, another chain can lose its work to the closed pool. */
  lemma TwoFailuresLoseWork(p: Pool, id: nat)
    requires Reachable(p) && !p.closed && id < |p.chains| && p.chains[id].failures >= 2
    ensures exists q :: Leads(p, q) && NoNewDouble(p, q) && Loses(q)
  {
    RunsAhead(p, id);
    var q :| Onward(p, q) && q.pending < 0;
    OnwardIs(p, q);
    LoseLate(q);
    var r := Pool(q.pending + 1, true, q.chains + [CUT]);
    LeadsTrans(p, q, r);
    assert r.chains[|q.chains|] in r.chains;
    assert NoNewDouble(p, r);
  }

  lemma StaysSingle(p: Pool, q: Pool)
    requires AtMostOneFailure(p) && NoNewDouble(p, q)
    ensures AtMostOneFailure(q)
  {
    forall c | c in q.chains
      ensures c.failures <= 1
    {
      var j :| 0 <= j < |q.chains| && q.chains[j] == c;
      assert j < |p.chains| ==> p.chains[j] in p.chains;
    }
  }

  /** While the pool is open, the condition for a safe shutdown is exactly that no chain has
      seen two failures: then no run in which that stays so closes the pool early, and
      otherwise some run does, even without a second failure in any further chain. */
  lemma SafeExactly(p: Pool)
    requires Reachable(p) && !p.closed
    ensures AtMostOneFailure(p) <==> forall q :: Leads(p, q) && NoNewDouble(p, q) ==> !ClosesEarly(q)
  {
    if AtMostOneFailure(p) {
      forall q | Leads(p, q) && NoNewDouble(p, q)
        ensures !ClosesEarly(q)
      {
        LeadsTrans(START, p, q);
        StaysSingle(p, q);
        if Enabled(q, Close) {
          CloseIsSafe(q);
        }
      }
    } else {
      var c :| c in p.chains && c.failures > 1;
      var id :| 0 <= id < |p.chains| && p.chains[id] == c;
      TwoFailuresCloseEarly(p, id);
    }
  }

  /** It is exactly the condition for losing no work, too. */
  lemma LossExactly(p: Pool)
    requires Reachable(p) && !p.closed
    ensures AtMostOneFailure(p) <==> forall q :: Leads(p, q) && NoNewDouble(p, q) ==> !Loses(q)
  {
    if AtMostOneFailure(p) {
      forall q | Leads(p, q) && NoNewDouble(p, q)
        ensures !Loses(q)
      {
        LeadsTrans(START, p, q);
        StaysSingle(p, q);
        NoneLost(q);
      }
    } else {
      var c :| c in p.chains && c.failures > 1;
      var id :| 0 <= id < |p.chains| && p.chains[id] == c;
      TwoFailuresLoseWork(p, id);
    }
  }

  /** An instance: both invocations of the only work fail. */
  lemma CloseUnsafeAfterTwoFailures()
    ensures exists p, q :: Reachable(p) && ClosesEarly(p) && Reachable(q) && Loses(q)
  {
    LeadsRefl(START);
    var p1 := Next(START, Register([2]));
    LeadsStep(START, START, Register([2]));
    var p2 := Next(p1, Act(0, SubmitNext));
    LeadsStep(START, p1, Act(0, SubmitNext));
    var p3 := Next(p2, Act(0, Fail));
    LeadsStep(START, p2, Act(0, Fail));
    var p4 := Next(p3, Act(0, Fail));
    LeadsStep(START, p3, Act(0, Fail));
    TwoFailuresCloseEarly(p4, 0);
    var q :| Leads(p4, q) && NoNewDouble(p4, q) && ClosesEarly(q);
    LeadsTrans(START, p4, q);
    TwoFailuresLoseWork(p4, 0);
    var r :| Leads(p4, r) && NoNewDouble(p4, r) && Loses(r);
    LeadsTrans(START, p4, r);
  }
}
