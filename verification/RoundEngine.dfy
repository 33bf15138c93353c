/** Sorting the requested goals and running their tasks
    (src/python/pants/engine/round_engine.py). */
module RoundEngines {
  import opened Wrappers
  import opened Graphs
  import opened RoundManagers
  import opened GoalScheduling

  /** An ordered set: repetitions are dropped, first occurrences stay in place. */
  function OrderedSet(s: seq<string>): (r: seq<string>)
    ensures forall x :: x in r <==> x in s
  {
    if s == [] then [] else
      var front := OrderedSet(s[..|s| - 1]);
      assert s == s[..|s| - 1] + [s[|s| - 1]];
      if s[|s| - 1] in front then front else front + [s[|s| - 1]]
  }

  ghost predicate Wanted(w: World, goals: seq<string>, g: string) {
    ReachFrom(GoalEdges(w), Elems(goals), g)
  }

  ghost predicate CycleWanted(w: World, goals: seq<string>) {
    exists g, h :: Wanted(w, goals, g) && (g, h) in GoalEdges(w) && Reach(GoalEdges(w), h, g)
  }

  ghost predicate FaultWanted(w: World, goals: seq<string>, e: Error) {
    exists g :: g in w.registry && Wanted(w, goals, g) && Faulty(w, g, e)
  }

  /** A plan for `goals`: each goal they transitively need, once, after all it needs. */
  ghost predicate IsPlan(w: World, goals: seq<string>, plan: seq<GoalInfo>) {
    && (forall i, j :: 0 <= i < j < |plan| ==> plan[i].goal != plan[j].goal)
    && (forall i :: 0 <= i < |plan| ==>
          var g := plan[i].goal;
          g in w.registry && Wanted(w, goals, g) && IsInfoOf(w, g, plan[i]) && !Misordered(w, g))
    && (forall g :: Wanted(w, goals, g) ==> exists i :: 0 <= i < |plan| && plan[i].goal == g)
    && (forall i, j :: 0 <= i < |plan| && 0 <= j < |plan| && (plan[i].goal, plan[j].goal) in GoalEdges(w) ==> j < i)
  }

  /** What visiting the requested goals amounts to. */
  ghost predicate Visited(w: World, goals: seq<string>, infos: map<string, GoalInfo>) {
    && (forall g :: g in infos <==> Wanted(w, goals, g))
    && (forall g :: g in infos ==>
          g in w.registry && IsInfoOf(w, g, infos[g]) && !LacksProduct(w, g) && !Misordered(w, g))
  }

  lemma WantedStep(w: World, goals: seq<string>, g: string, h: string)
    requires Wanted(w, goals, g) && (g, h) in GoalEdges(w)
    ensures Wanted(w, goals, h)
  {
    var r :| r in Elems(goals) && Reach(GoalEdges(w), r, g);
    ReachSnoc(GoalEdges(w), r, g, h);
  }

  lemma WantedFrom(w: World, goals: seq<string>, r: string)
    requires r in goals
    ensures forall g :: Reach(GoalEdges(w), r, g) ==> Wanted(w, goals, g)
  {
    assert r in Elems(goals);
  }

  lemma WantedIsLeast(w: World, goals: seq<string>, S: set<string>)
    requires Closed(GoalEdges(w), S) && forall g :: g in goals ==> g in S
    ensures forall g :: Wanted(w, goals, g) ==> g in S
  {
    forall g | Wanted(w, goals, g)
      ensures g in S
    {
      var r :| r in Elems(goals) && Reach(GoalEdges(w), r, g);
      ReachInClosed(GoalEdges(w), S, r, g);
    }
  }

  /** The visited goals have a cycle exactly when the goals asked for need one. */
  lemma VisitedCycles(w: World, goals: seq<string>, infos: map<string, GoalInfo>)
    requires Visited(w, goals, infos)
    ensures NeedsListed(infos)
    ensures forall g, h :: (g, h) in InfoEdges(infos) <==> g in infos && (g, h) in GoalEdges(w)
    ensures Acyclic(InfoEdges(infos)) <==> !CycleWanted(w, goals)
  {
    var E, F, S := GoalEdges(w), InfoEdges(infos), infos.Keys;
    forall g, h | g in infos && (g, h) in E
      ensures h in infos
    {
      WantedStep(w, goals, g, h);
    }
    assert forall g, h :: (g, h) in F <==> g in infos && (g, h) in E;
    if g, h :| (g, h) in F && Reach(F, h, g) {
      ReachMono(F, E, h, g);
    }
    if g, h :| Wanted(w, goals, g) && (g, h) in E && Reach(E, h, g) {
      ReachAgree(E, F, S, h, g);
    }
  }

  lemma VisitedFaultless(w: World, goals: seq<string>, infos: map<string, GoalInfo>)
    requires Visited(w, goals, infos)
    ensures forall e :: !FaultWanted(w, goals, e)
  {
  }

  /** The visiting loop of `sort_goals`, last goal first. */
  method VisitAll(w: World, goals: seq<string>)
    returns (order: seq<string>, m: map<string, GoalInfo>, e: Option<Error>)
    requires w.Valid() && forall g :: g in goals ==> g in w.registry
    ensures e.None? ==> Visited(w, goals, m) && forall g :: g in order <==> g in m
    ensures e.Some? ==> FaultWanted(w, goals, e.value)
  {
    var infos := new GoalInfos(w);
    var k := |goals|;
    while k > 0
      invariant 0 <= k <= |goals| && fresh(infos) && infos.w == w && infos.Valid()
      invariant forall x :: x in infos.infos ==> Wanted(w, goals, x)
      invariant forall g :: g in goals[k..] ==> g in infos.infos
      invariant infos.Settled({})
    {
      k := k - 1;
      assert goals[k..] == [goals[k]] + goals[k + 1..];
      WantedFrom(w, goals, goals[k]);
      e := infos.Visit(goals[k]);
      if e.Some? {
        return [], map[], e;
      }
    }
    WantedIsLeast(w, goals, infos.infos.Keys);
    return infos.order, infos.infos, None;
  }

  /** The infos of `names`, from last to first. */
  function PlanOf(m: map<string, GoalInfo>, names: seq<string>): (plan: seq<GoalInfo>)
    requires forall g :: g in names ==> g in m
    ensures |plan| == |names| && forall i :: 0 <= i < |names| ==> plan[i] == m[names[|names| - 1 - i]]
  {
    Reversed(seq(|names|, i requires 0 <= i < |names| => m[names[i]]))
  }

  lemma DependenciesRunFirst(w: World, names: seq<string>, plan: seq<GoalInfo>)
    requires NoDup(names) && forall g, h :: g in names && (g, h) in GoalEdges(w) ==> Before(names, g, h)
    requires |plan| == |names| && forall i :: 0 <= i < |names| ==> plan[i].goal == names[|names| - 1 - i]
    ensures forall i, j :: 0 <= i < |plan| && 0 <= j < |plan| && (plan[i].goal, plan[j].goal) in GoalEdges(w) ==> j < i
  {
    forall i, j | 0 <= i < |plan| && 0 <= j < |plan| && (plan[i].goal, plan[j].goal) in GoalEdges(w)
      ensures j < i
    {
      BeforeIndices(names, |names| - 1 - i, |names| - 1 - j);
    }
  }

  lemma PlanFromOrder(w: World, goals: seq<string>, infos: map<string, GoalInfo>, names: seq<string>,
                      plan: seq<GoalInfo>)
    requires Visited(w, goals, infos) && NoDup(names) && forall g :: g in names <==> g in infos
    requires forall g, h :: g in infos && (g, h) in GoalEdges(w) ==> Before(names, g, h)
    requires |plan| == |names| && forall i :: 0 <= i < |names| ==> plan[i] == infos[names[|names| - 1 - i]]
    ensures IsPlan(w, goals, plan)
  {
    forall i | 0 <= i < |plan|
      ensures plan[i].goal == names[|names| - 1 - i]
      ensures var g := plan[i].goal;
              g in w.registry && Wanted(w, goals, g) && IsInfoOf(w, g, plan[i]) && !Misordered(w, g)
    {
      assert names[|names| - 1 - i] in names;
    }
    forall g | Wanted(w, goals, g)
      ensures exists i :: 0 <= i < |plan| && plan[i].goal == g
    {
      var i :| 0 <= i < |names| && names[i] == g;
      assert plan[|names| - 1 - i].goal == g;
    }
    DependenciesRunFirst(w, names, plan);
  }

  /** `sort_goals`: a plan, or the error that some wanted goal deserves. */
  method SortGoals(w: World, goals: seq<string>) returns (r: Result<seq<GoalInfo>>)
    requires w.Valid() && forall g :: g in goals ==> g in w.registry
    ensures r.Ok? ==> IsPlan(w, goals, r.value) && !CycleWanted(w, goals)
    ensures r.Ok? ==> forall e :: !FaultWanted(w, goals, e)
    ensures r.Err? ==> if r.error.GoalCycleError? then CycleWanted(w, goals) else FaultWanted(w, goals, r.error)
  {
    var order, infos, e := VisitAll(w, OrderedSet(goals));
    assert Elems(OrderedSet(goals)) == Elems(goals);
    if e.Some? {
      return Err(e.value);
    }
    VisitedCycles(w, goals, infos);
    VisitedFaultless(w, goals, infos);
    r := Err(GoalCycleError);
    var sorted := TopologicalSort(order, infos);
    if sorted.Ok? {
      PlanFromOrder(w, goals, infos, sorted.value, PlanOf(infos, sorted.value));
      r := Ok(PlanOf(infos, sorted.value));
    }
  }

  // ---- The order in which tasks run --------------------------------------------------------

  /** The tasks of one goal in the order they run: the visiting order reversed. */
  function TasksOf(info: GoalInfo): (r: seq<(string, string)>)
    ensures |r| == |info.tasks|
    ensures forall i :: 0 <= i < |r| ==> r[i] == (info.goal, info.tasks[|r| - 1 - i])
  {
    seq(|info.tasks|, i requires 0 <= i < |info.tasks| => (info.goal, info.tasks[|info.tasks| - 1 - i]))
  }

  function Schedule(plan: seq<GoalInfo>): seq<(string, string)> {
    if plan == [] then [] else TasksOf(plan[0]) + Schedule(plan[1..])
  }

  lemma {:induction false} ScheduleSplit(plan: seq<GoalInfo>, k: nat)
    requires k <= |plan|
    ensures Schedule(plan) == Schedule(plan[..k]) + Schedule(plan[k..])
  {
    if k > 0 {
      ScheduleSplit(plan[1..], k - 1);
      assert plan[..k][1..] == plan[1..][..k - 1];
      assert plan[k..] == plan[1..][k - 1..];
    } else {
      assert plan[k..] == plan;
    }
  }

  lemma ScheduleAround(plan: seq<GoalInfo>, k: nat)
    requires k < |plan|
    ensures Schedule(plan) == Schedule(plan[..k]) + TasksOf(plan[k]) + Schedule(plan[k + 1..])
  {
    ScheduleSplit(plan, k);
    assert plan[k..][1..] == plan[k + 1..];
  }

  ghost predicate Plans(plan: seq<GoalInfo>, g: string, n: string) {
    exists i :: 0 <= i < |plan| && plan[i].goal == g && n in plan[i].tasks
  }

  lemma PlansStep(plan: seq<GoalInfo>, g: string, n: string)
    requires plan != []
    ensures Plans(plan, g, n) <==> (plan[0].goal == g && n in plan[0].tasks) || Plans(plan[1..], g, n)
  {
    if Plans(plan[1..], g, n) {
      var i :| 0 <= i < |plan| - 1 && plan[1..][i].goal == g && n in plan[1..][i].tasks;
      assert plan[i + 1] == plan[1..][i];
    }
    if i :| 1 <= i < |plan| && plan[i].goal == g && n in plan[i].tasks {
      assert plan[1..][i - 1] == plan[i];
    }
  }

  lemma TaskMembers(info: GoalInfo, g: string, n: string)
    ensures (g, n) in TasksOf(info) <==> info.goal == g && n in info.tasks
  {
    if info.goal == g && n in info.tasks {
      var i :| 0 <= i < |info.tasks| && info.tasks[i] == n;
      assert TasksOf(info)[|info.tasks| - 1 - i] == (g, n);
    }
  }

  lemma {:induction false} ScheduleMembers(plan: seq<GoalInfo>, g: string, n: string)
    ensures (g, n) in Schedule(plan) <==> Plans(plan, g, n)
  {
    if plan != [] {
      TaskMembers(plan[0], g, n);
      ScheduleMembers(plan[1..], g, n);
      PlansStep(plan, g, n);
    }
  }

  lemma {:induction false} ScheduleNoDup(plan: seq<GoalInfo>)
    requires forall i, j :: 0 <= i < j < |plan| ==> plan[i].goal != plan[j].goal
    requires forall i :: 0 <= i < |plan| ==> NoDup(plan[i].tasks)
    ensures NoDup(Schedule(plan))
  {
    if plan != [] {
      ScheduleNoDup(plan[1..]);
      var first, rest := TasksOf(plan[0]), Schedule(plan[1..]);
      forall x | x in first && x in rest
        ensures false
      {
        ScheduleMembers(plan[1..], x.0, x.1);
      }
      NoDupConcat(first, rest);
    }
  }

  lemma BeforeConcat<A>(s: seq<A>, t: seq<A>, u: seq<A>, a: A, b: A)
    requires (a in s && b in t) || Before(t, a, b)
    ensures Before(s + t + u, a, b)
  {
    var all := s + t + u;
    if Before(t, a, b) {
      var i, j :| 0 <= i < j < |t| && t[i] == a && t[j] == b;
      assert all[|s| + i] == a && all[|s| + j] == b;
    } else {
      var i :| 0 <= i < |s| && s[i] == a;
      var j :| 0 <= j < |t| && t[j] == b;
      assert all[i] == a && all[|s| + j] == b;
    }
  }

  lemma ScheduleOwn(plan: seq<GoalInfo>, k: nat, i: nat, j: nat)
    requires k < |plan| && i < j < |plan[k].tasks|
    ensures Before(Schedule(plan), TasksOf(plan[k])[i], TasksOf(plan[k])[j])
  {
    ScheduleAround(plan, k);
    var t := TasksOf(plan[k]);
    BeforeConcat(Schedule(plan[..k]), t, Schedule(plan[k + 1..]), t[i], t[j]);
  }

  lemma ScheduleOther(plan: seq<GoalInfo>, l: nat, m: string, k: nat, n: string)
    requires l < k < |plan| && m in plan[l].tasks && n in plan[k].tasks
    ensures Before(Schedule(plan), (plan[l].goal, m), (plan[k].goal, n))
  {
    assert plan[..k][l] == plan[l];
    ScheduleMembers(plan[..k], plan[l].goal, m);
    TaskMembers(plan[k], plan[k].goal, n);
    ScheduleAround(plan, k);
    BeforeConcat(Schedule(plan[..k]), TasksOf(plan[k]), Schedule(plan[k + 1..]), (plan[l].goal, m), (plan[k].goal, n));
  }

  lemma PlanEntry(w: World, goals: seq<string>, plan: seq<GoalInfo>, k: nat)
    requires w.Valid() && IsPlan(w, goals, plan) && k < |plan|
    ensures var g := plan[k].goal;
            && Wanted(w, goals, g) && NoDup(plan[k].tasks)
            && forall n :: n in plan[k].tasks <==> w.HasTask(g, n)
  {
    var names := w.registry[plan[k].goal].names;
    assert plan[k].tasks == Reversed(names);
    forall n | n in names
      ensures n in plan[k].tasks
    {
      var i :| 0 <= i < |names| && names[i] == n;
      assert plan[k].tasks[|names| - 1 - i] == n;
    }
  }

  lemma PlanTasks(w: World, goals: seq<string>, plan: seq<GoalInfo>, g: string, n: string)
    requires w.Valid() && IsPlan(w, goals, plan)
    ensures (g, n) in Schedule(plan) <==> Wanted(w, goals, g) && w.HasTask(g, n)
  {
    ScheduleMembers(plan, g, n);
    if i :| 0 <= i < |plan| && plan[i].goal == g && n in plan[i].tasks {
      PlanEntry(w, goals, plan, i);
    }
    if Wanted(w, goals, g) {
      var i :| 0 <= i < |plan| && plan[i].goal == g;
      PlanEntry(w, goals, plan, i);
    }
  }

  /** The visiting order is reversed twice, so tasks run as they were registered. */
  lemma RegistrationOrder(info: GoalInfo, names: seq<string>)
    requires info.tasks == Reversed(names)
    ensures |info.tasks| == |names| && forall i :: 0 <= i < |names| ==> TasksOf(info)[i] == (info.goal, names[i])
  {
  }

  /** Tasks of one goal run in the order of registration. */
  lemma PlanOrder(plan: seq<GoalInfo>, k: nat, names: seq<string>, i: nat, j: nat)
    requires k < |plan| && plan[k].tasks == Reversed(names) && i < j < |names|
    ensures Before(Schedule(plan), (plan[k].goal, names[i]), (plan[k].goal, names[j]))
  {
    RegistrationOrder(plan[k], names);
    ScheduleOwn(plan, k, i, j);
  }

  lemma SiblingOrder(w: World, g: string, n: string, m: string)
    requires w.Valid() && g in w.registry && !Misordered(w, g)
    requires TaskNeeds(w, g, n, g, m) && n != m
    ensures Before(w.registry[g].names, m, n)
  {
    var names := w.registry[g].names;
    assert n in names && m in names;
    var i :| 0 <= i < |names| && names[i] == n;
    var j :| 0 <= j < |names| && names[j] == m;
  }

  lemma OwnGoalProducer(w: World, goals: seq<string>, plan: seq<GoalInfo>, g: string, n: string, m: string)
    requires w.Valid() && IsPlan(w, goals, plan)
    requires Wanted(w, goals, g) && TaskNeeds(w, g, n, g, m) && n != m
    ensures Before(Schedule(plan), (g, m), (g, n))
  {
    var k :| 0 <= k < |plan| && plan[k].goal == g;
    SiblingOrder(w, g, n, m);
    var names := w.registry[g].names;
    var i, j :| 0 <= i < j < |names| && names[i] == m && names[j] == n;
    PlanOrder(plan, k, names, i, j);
  }

  lemma OtherGoalProducer(w: World, goals: seq<string>, plan: seq<GoalInfo>, g: string, n: string, h: string, m: string)
    requires w.Valid() && IsPlan(w, goals, plan)
    requires Wanted(w, goals, g) && TaskNeeds(w, g, n, h, m) && g != h
    ensures Before(Schedule(plan), (h, m), (g, n))
  {
    assert (g, h) in GoalEdges(w);
    WantedStep(w, goals, g, h);
    var k :| 0 <= k < |plan| && plan[k].goal == g;
    var l :| 0 <= l < |plan| && plan[l].goal == h;
    PlanEntry(w, goals, plan, k);
    PlanEntry(w, goals, plan, l);
    ScheduleOther(plan, l, m, k, n);
  }

  /** The end-to-end guarantee. Exactly the tasks of the goals transitively needed by the
      requested ones are scheduled, each once; and a task comes after every other registered
      task that produces something it requires, in its own goal or in another. */
  lemma ProducersFirst(w: World, goals: seq<string>, plan: seq<GoalInfo>)
    requires w.Valid() && IsPlan(w, goals, plan)
    ensures NoDup(Schedule(plan))
    ensures forall g, n :: (g, n) in Schedule(plan) <==> Wanted(w, goals, g) && w.HasTask(g, n)
    ensures forall g, n, h, m :: Wanted(w, goals, g) && TaskNeeds(w, g, n, h, m) && (g, n) != (h, m) ==>
              Before(Schedule(plan), (h, m), (g, n))
  {
    forall k | 0 <= k < |plan|
      ensures NoDup(plan[k].tasks)
    {
      PlanEntry(w, goals, plan, k);
    }
    ScheduleNoDup(plan);
    forall g, n
      ensures (g, n) in Schedule(plan) <==> Wanted(w, goals, g) && w.HasTask(g, n)
    {
      PlanTasks(w, goals, plan, g, n);
    }
    forall g, n, h, m | Wanted(w, goals, g) && TaskNeeds(w, g, n, h, m) && (g, n) != (h, m)
      ensures Before(Schedule(plan), (h, m), (g, n))
    {
      if g == h {
        OwnGoalProducer(w, goals, plan, g, n, m);
      } else {
        OtherGoalProducer(w, goals, plan, g, n, h, m);
      }
    }
  }

  // ---- Running the plan -----------------------------------------------------------------

  datatype Event = Acquire | Release | Run(goal: string, task: string)

  /** How a run ends: all tasks done, a task raised, or nothing could be run. */
  datatype Ending = Finished | TaskRaised | NoGoals | Unschedulable(error: Error)

  /** The tasks that ran, in order. */
  function Ran(log: seq<Event>): seq<(string, string)> {
    if log == [] then []
    else Ran(log[..|log| - 1]) + (if log[|log| - 1].Run? then [(log[|log| - 1].goal, log[|log| - 1].task)] else [])
  }

  /** Whether the workspace lock is held after `log`. */
  predicate Locked(log: seq<Event>) {
    log != [] && match log[|log| - 1]
                 case Acquire => true
                 case Release => false
                 case Run(_, _) => Locked(log[..|log| - 1])
  }

  predicate Serialized(w: World, g: string) {
    g in w.registry && w.registry[g].serialize
  }

  /** The goal, or one that comes after it in the plan, is serialized. */
  ghost predicate NeedsLock(w: World, plan: seq<GoalInfo>, g: string) {
    Serialized(w, g) || exists k, l :: 0 <= k < l < |plan| && plan[k].goal == g && Serialized(w, plan[l].goal)
  }

  /** Every task ran under the lock exactly when its goal or a later one needs it. */
  ghost predicate Guarded(w: World, plan: seq<GoalInfo>, log: seq<Event>) {
    log != [] ==>
      var front, e := log[..|log| - 1], log[|log| - 1];
      Guarded(w, plan, front) && (e.Run? ==> (Locked(front) <==> NeedsLock(w, plan, e.goal)))
  }

  lemma {:induction false} GuardedAt(w: World, plan: seq<GoalInfo>, log: seq<Event>, i: nat)
    requires Guarded(w, plan, log) && i < |log| && log[i].Run?
    ensures Locked(log[..i]) <==> NeedsLock(w, plan, log[i].goal)
  {
    if i < |log| - 1 {
      GuardedAt(w, plan, log[..|log| - 1], i);
      assert log[..|log| - 1][..i] == log[..i];
    }
  }

  function Using(uses: (nat, nat), e: Event): (nat, nat) {
    (uses.0 + if e.Acquire? then 1 else 0, uses.1 + if e.Release? then 1 else 0)
  }

  /** How often the lock was taken and given back. */
  ghost function LockUses(log: seq<Event>): (nat, nat) {
    if log == [] then (0, 0) else Using(LockUses(log[..|log| - 1]), log[|log| - 1])
  }

  lemma LogOne(w: World, plan: seq<GoalInfo>, log: seq<Event>, e: Event)
    requires Guarded(w, plan, log) && (e.Run? ==> (Locked(log) <==> NeedsLock(w, plan, e.goal)))
    ensures Guarded(w, plan, log + [e])
    ensures Ran(log + [e]) == Ran(log) + (if e.Run? then [(e.goal, e.task)] else [])
    ensures Locked(log + [e]) == (e.Acquire? || (e.Run? && Locked(log)))
    ensures LockUses(log + [e]) == Using(LockUses(log), e)
  {
    assert (log + [e])[..|log|] == log;
  }

  /** None of the tasks raises. */
  ghost predicate Calm(raises: (string, string) -> bool, ts: seq<(string, string)>) {
    forall t :: t in ts ==> !raises(t.0, t.1)
  }

  lemma CalmConcat(raises: (string, string) -> bool, s: seq<(string, string)>, t: seq<(string, string)>)
    ensures Calm(raises, s + t) <==> Calm(raises, s) && Calm(raises, t)
  {
    assert forall x :: x in s + t <==> x in s || x in t;
  }

  lemma PrefixTrans<A>(s: seq<A>, t: seq<A>, u: seq<A>)
    requires s <= t && t <= u
    ensures s <= u
  {
  }

  /** After `log` the tasks `ts` ran, and the lock was left alone. */
  ghost predicate Logged(w: World, plan: seq<GoalInfo>, log: seq<Event>, ts: seq<(string, string)>, log': seq<Event>) {
    && Guarded(w, plan, log') && Ran(log') == Ran(log) + ts
    && Locked(log') == Locked(log) && LockUses(log') == LockUses(log)
  }

  lemma LogTask(w: World, plan: seq<GoalInfo>, log: seq<Event>, ts: seq<(string, string)>, n: nat, log': seq<Event>)
    requires n < |ts| && Logged(w, plan, log, ts[..n], log') && (Locked(log) <==> NeedsLock(w, plan, ts[n].0))
    ensures Logged(w, plan, log, ts[..n + 1], log' + [Run(ts[n].0, ts[n].1)])
  {
    LogOne(w, plan, log', Run(ts[n].0, ts[n].1));
    assert ts[..n + 1] == ts[..n] + [ts[n]];
  }

  function Runs(ts: seq<(string, string)>): seq<Event> {
    seq(|ts|, i requires 0 <= i < |ts| => Run(ts[i].0, ts[i].1))
  }

  lemma RunsSnoc(log: seq<Event>, ts: seq<(string, string)>, n: nat)
    requires n < |ts|
    ensures log + Runs(ts[..n + 1]) == log + Runs(ts[..n]) + [Run(ts[n].0, ts[n].1)]
  {
  }

  lemma RunsNothing(log: seq<Event>, ts: seq<(string, string)>)
    ensures log + Runs(ts[..0]) == log && Ran(log) + ts[..0] == Ran(log)
  {
  }

  lemma {:induction false} LogRuns(w: World, plan: seq<GoalInfo>, log: seq<Event>, ts: seq<(string, string)>, n: nat)
    requires n <= |ts| && Guarded(w, plan, log)
    requires forall t :: t in ts ==> (Locked(log) <==> NeedsLock(w, plan, t.0))
    ensures Logged(w, plan, log, ts[..n], log + Runs(ts[..n]))
  {
    if n == 0 {
      RunsNothing(log, ts);
    } else {
      LogRuns(w, plan, log, ts, n - 1);
      LogTask(w, plan, log, ts, n - 1, log + Runs(ts[..n - 1]));
      RunsSnoc(log, ts, n - 1);
    }
  }

  /** `GoalExecutor.attempt`: the tasks of one goal until one raises. */
  method RunTasks(info: GoalInfo, raises: (string, string) -> bool, log: seq<Event>)
    returns (log': seq<Event>, ok: bool, n: nat)
    ensures n <= |TasksOf(info)| && log' == log + Runs(TasksOf(info)[..n])
    ensures ok ==> n == |TasksOf(info)| && Calm(raises, TasksOf(info))
    ensures !ok ==> n > 0 && raises(TasksOf(info)[n - 1].0, TasksOf(info)[n - 1].1)
  {
    log', ok, n := log, true, 0;
    ghost var all := TasksOf(info);
    var k := |info.tasks|;
    while k > 0
      invariant 0 <= k <= |info.tasks| && n == |all| - k && log' == log + Runs(all[..n])
      invariant forall i :: 0 <= i < n ==> !raises(all[i].0, all[i].1)
    {
      k, n := k - 1, n + 1;
      log' := log' + [Run(info.goal, info.tasks[k])];
      if raises(info.goal, info.tasks[k]) {
        return log', false, n;
      }
    }
  }

  method RunGoal(w: World, ghost plan: seq<GoalInfo>, info: GoalInfo, raises: (string, string) -> bool,
                 log: seq<Event>)
    returns (log': seq<Event>, ok: bool, ghost n: nat)
    requires Guarded(w, plan, log) && (Locked(log) <==> NeedsLock(w, plan, info.goal))
    ensures n <= |TasksOf(info)| && Logged(w, plan, log, TasksOf(info)[..n], log')
    ensures ok ==> n == |TasksOf(info)| && Calm(raises, TasksOf(info))
    ensures !ok ==> n > 0 && raises(TasksOf(info)[n - 1].0, TasksOf(info)[n - 1].1)
  {
    log', ok, n := RunTasks(info, raises, log);
    LogRuns(w, plan, log, TasksOf(info), n);
  }

  /** After `log` one goal ran, and the lock was given back if it was held and the goal was the
      last that needs it, or raised. */
  ghost predicate Ended(w: World, plan: seq<GoalInfo>, info: GoalInfo, raises: (string, string) -> bool,
                        log: seq<Event>, held: bool, last: bool, log': seq<Event>, ok: bool) {
    && Guarded(w, plan, log') && Locked(log') == (held && ok && !last)
    && LockUses(log') == (LockUses(log).0, LockUses(log).1 + if held && (!ok || last) then 1 else 0)
    && Ran(log') <= Ran(log) + TasksOf(info)
    && (ok ==> Ran(log') == Ran(log) + TasksOf(info) && Calm(raises, TasksOf(info)))
    && (!ok ==> var ran := Ran(log'); ran != [] && raises(ran[|ran| - 1].0, ran[|ran| - 1].1))
  }

  method RunAndRelease(w: World, ghost plan: seq<GoalInfo>, info: GoalInfo, raises: (string, string) -> bool,
                       log: seq<Event>, held: bool, last: bool)
    returns (log': seq<Event>, ok: bool)
    requires Guarded(w, plan, log) && Locked(log) == held && (held <==> NeedsLock(w, plan, info.goal))
    ensures Ended(w, plan, info, raises, log, held, last, log', ok)
  {
    ghost var n;
    log', ok, n := RunGoal(w, plan, info, raises, log);
    assert TasksOf(info)[..|TasksOf(info)|] == TasksOf(info);
    if held && (!ok || last) {
      LogOne(w, plan, log', Release);
      log' := log' + [Release];
    }
  }

  /** The first `k` goals of the plan have run, and nothing raised; the lock is held until the
      goal at `last` is done. */
  ghost predicate Progress(w: World, plan: seq<GoalInfo>, k: nat, last: int, raises: (string, string) -> bool,
                           log: seq<Event>)
    requires k <= |plan|
  {
    && Guarded(w, plan, log) && Locked(log) == (k <= last)
    && LockUses(log) == (if last >= 0 then 1 else 0, if 0 <= last < k then 1 else 0)
    && Ran(log) == Schedule(plan[..k]) && Calm(raises, Ran(log))
  }

  /** Tasks ran under the lock exactly as long as a goal needs it. The lock is free, and it was
      taken and given back once if there is a serialized goal in the plan, and never if not. */
  ghost predicate LockedRight(w: World, plan: seq<GoalInfo>, log: seq<Event>) {
    && Guarded(w, plan, log) && !Locked(log)
    && LockUses(log) == if exists l :: 0 <= l < |plan| && Serialized(w, plan[l].goal) then (1, 1) else (0, 0)
  }

  /** All of the plan has run, or the last task that ran raised. */
  ghost predicate Completed(w: World, plan: seq<GoalInfo>, raises: (string, string) -> bool, log: seq<Event>) {
    LockedRight(w, plan, log) && Ran(log) == Schedule(plan) && Calm(raises, Schedule(plan))
  }

  ghost predicate Halted(w: World, plan: seq<GoalInfo>, raises: (string, string) -> bool, log: seq<Event>) {
    && LockedRight(w, plan, log) && Ran(log) <= Schedule(plan)
    && var ran := Ran(log); ran != [] && raises(ran[|ran| - 1].0, ran[|ran| - 1].1)
  }

  lemma OpeningLog(w: World, plan: seq<GoalInfo>, last: int, raises: (string, string) -> bool, log: seq<Event>)
    requires log == if last >= 0 then [Acquire] else []
    ensures Progress(w, plan, 0, last, raises, log)
  {
    if log != [] {
      LogOne(w, plan, [], Acquire);
      assert [] + [Acquire] == log;
    }
  }

  /** `last` is the position of the last serialized goal; -1 if there is none. */
  ghost predicate IsLast(w: World, plan: seq<GoalInfo>, last: int) {
    && -1 <= last < |plan| && (last >= 0 ==> Serialized(w, plan[last].goal))
    && forall i :: last < i < |plan| ==> !Serialized(w, plan[i].goal)
  }

  ghost predicate DistinctGoals(plan: seq<GoalInfo>) {
    forall i, j :: 0 <= i < j < |plan| ==> plan[i].goal != plan[j].goal
  }

  lemma ReleasedRight(w: World, plan: seq<GoalInfo>, last: int, log: seq<Event>)
    requires IsLast(w, plan, last) && Guarded(w, plan, log) && !Locked(log)
    requires LockUses(log) == if last >= 0 then (1, 1) else (0, 0)
    ensures LockedRight(w, plan, log)
  {
  }

  lemma NeededUntilLast(w: World, plan: seq<GoalInfo>, last: int, k: nat)
    requires DistinctGoals(plan) && IsLast(w, plan, last) && k < |plan|
    ensures NeedsLock(w, plan, plan[k].goal) <==> k <= last
  {
  }

  lemma ScheduleSnoc(plan: seq<GoalInfo>, k: nat)
    requires k < |plan|
    ensures Schedule(plan[..k + 1]) == Schedule(plan[..k]) + TasksOf(plan[k]) <= Schedule(plan)
  {
    ScheduleAround(plan, k);
    var p := plan[..k + 1];
    ScheduleAround(p, k);
    assert p[..k] == plan[..k] && p[k + 1..] == [];
  }

  lemma GoalDone(w: World, plan: seq<GoalInfo>, k: nat, last: int, raises: (string, string) -> bool,
                 log: seq<Event>, log': seq<Event>)
    requires k < |plan| && Progress(w, plan, k, last, raises, log)
    requires Ended(w, plan, plan[k], raises, log, k <= last, k == last, log', true)
    ensures Progress(w, plan, k + 1, last, raises, log')
  {
    CalmConcat(raises, Ran(log), TasksOf(plan[k]));
    ScheduleSnoc(plan, k);
  }

  lemma GoalRaised(w: World, plan: seq<GoalInfo>, k: nat, last: int, raises: (string, string) -> bool,
                   log: seq<Event>, log': seq<Event>)
    requires k < |plan| && Progress(w, plan, k, last, raises, log) && IsLast(w, plan, last)
    requires Ended(w, plan, plan[k], raises, log, k <= last, k == last, log', false)
    ensures Halted(w, plan, raises, log')
  {
    ScheduleSnoc(plan, k);
    PrefixTrans(Ran(log'), Ran(log) + TasksOf(plan[k]), Schedule(plan));
    ReleasedRight(w, plan, last, log');
  }

  /** One round of the loop over the sorted goals. */
  method RunNext(w: World, plan: seq<GoalInfo>, k: nat, last: int, raises: (string, string) -> bool, log: seq<Event>)
    returns (ok: bool, log': seq<Event>)
    requires k < |plan| && Progress(w, plan, k, last, raises, log) && DistinctGoals(plan) && IsLast(w, plan, last)
    ensures if ok then Progress(w, plan, k + 1, last, raises, log') else Halted(w, plan, raises, log')
  {
    NeededUntilLast(w, plan, last, k);
    log', ok := RunAndRelease(w, plan, plan[k], raises, log, k <= last, k == last);
    if ok {
      GoalDone(w, plan, k, last, raises, log, log');
    } else {
      GoalRaised(w, plan, k, last, raises, log, log');
    }
  }

  lemma PlanDone(w: World, plan: seq<GoalInfo>, last: int, raises: (string, string) -> bool, log: seq<Event>)
    requires IsLast(w, plan, last) && Progress(w, plan, |plan|, last, raises, log)
    ensures Completed(w, plan, raises, log)
  {
    assert plan[..|plan|] == plan;
    ReleasedRight(w, plan, last, log);
  }

  /** The position of the last serialized goal, which releases the lock; -1 if none. */
  method LastSerialized(w: World, plan: seq<GoalInfo>) returns (last: int)
    ensures IsLast(w, plan, last)
  {
    last := -1;
    for k := 0 to |plan|
      invariant -1 <= last < k && (last >= 0 ==> Serialized(w, plan[last].goal))
      invariant forall i :: last < i < k ==> !Serialized(w, plan[i].goal)
    {
      if Serialized(w, plan[k].goal) {
        last := k;
      }
    }
  }

  /** The loop of `attempt` over the sorted goals: takes the workspace lock if some goal is
      serialized, and gives it back after the last such goal, or when a task raises. */
  method RunPlan(w: World, plan: seq<GoalInfo>, raises: (string, string) -> bool)
    returns (ok: bool, log: seq<Event>)
    requires DistinctGoals(plan)
    ensures if ok then Completed(w, plan, raises, log) else Halted(w, plan, raises, log)
  {
    var last := LastSerialized(w, plan);
    log := if last >= 0 then [Acquire] else [];
    OpeningLog(w, plan, last, raises, log);
    for k := 0 to |plan|
      invariant Progress(w, plan, k, last, raises, log)
    {
      ok, log := RunNext(w, plan, k, last, raises, log);
      if !ok {
        return;
      }
    }
    PlanDone(w, plan, last, raises, log);
    ok := true;
  }

  lemma NoGoalsNoFault(w: World, goals: seq<string>)
    ensures goals == [] ==> !CycleWanted(w, goals) && forall e :: !FaultWanted(w, goals, e)
  {
  }

  lemma PlanEmpty(w: World, goals: seq<string>, plan: seq<GoalInfo>)
    requires IsPlan(w, goals, plan)
    ensures plan == [] <==> goals == []
  {
    if goals != [] {
      ReachRefl(GoalEdges(w), goals[0]);
      assert goals[0] in Elems(goals) && Wanted(w, goals, goals[0]);
    }
    assert plan != [] ==> Wanted(w, goals, plan[0].goal);
  }

  /** `attempt`: schedules the requested goals and runs the plan. In every run, however it
      ends, the lock is held exactly until the last serialized goal is done. */
  method Attempt(w: World, goals: seq<string>, raises: (string, string) -> bool)
    returns (end: Ending, log: seq<Event>, ghost plan: seq<GoalInfo>)
    requires w.Valid() && forall g :: g in goals ==> g in w.registry
    ensures Guarded(w, plan, log) && !Locked(log)
    ensures end.Unschedulable? ==> log == []
    ensures end.Unschedulable? ==>
              if end.error.GoalCycleError? then CycleWanted(w, goals) else FaultWanted(w, goals, end.error)
    ensures end.NoGoals? <==> goals == []
    ensures end.NoGoals? ==> log == []
    ensures end.Finished? || end.TaskRaised? ==> IsPlan(w, goals, plan) && !CycleWanted(w, goals)
    ensures end.Finished? || end.TaskRaised? ==> forall e :: !FaultWanted(w, goals, e)
    ensures end.Finished? ==> Completed(w, plan, raises, log)
    ensures end.TaskRaised? ==> Halted(w, plan, raises, log)
  {
    var sorted := SortGoals(w, goals);
    if sorted.Err? {
      NoGoalsNoFault(w, goals);
      return Unschedulable(sorted.error), [], [];
    }
    plan := sorted.value;
    PlanEmpty(w, goals, plan);
    if sorted.value == [] {
      return NoGoals, [], [];
    }
    var ok;
    ok, log := RunPlan(w, sorted.value, raises);
    end := if ok then Finished else TaskRaised;
  }

  lemma PrefixBefore<A>(s: seq<A>, t: seq<A>, a: A, b: A)
    requires s <= t && NoDup(t) && b in s && Before(t, a, b)
    ensures Before(s, a, b)
  {
    var k :| 0 <= k < |s| && s[k] == b;
    var i, j :| 0 <= i < j < |t| && t[i] == a && t[j] == b;
    assert t[k] == b && s[i] == t[i];
  }

  /** In every run, whether it finishes or a task raises: when a task has run, every other
      registered task that produces something it requires ran before it. */
  lemma RanProducersFirst(w: World, goals: seq<string>, plan: seq<GoalInfo>, ran: seq<(string, string)>)
    requires w.Valid() && IsPlan(w, goals, plan) && ran <= Schedule(plan)
    ensures forall g, n, h, m :: (g, n) in ran && TaskNeeds(w, g, n, h, m) && (g, n) != (h, m) ==>
              Before(ran, (h, m), (g, n))
  {
    ProducersFirst(w, goals, plan);
    forall g, n, h, m | (g, n) in ran && TaskNeeds(w, g, n, h, m) && (g, n) != (h, m)
      ensures Before(ran, (h, m), (g, n))
    {
      assert (g, n) in Schedule(plan);
      PrefixBefore(ran, Schedule(plan), (h, m), (g, n));
    }
  }
}
