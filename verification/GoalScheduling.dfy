/** Closing the requested goals over their dependencies and sorting them (src/python/pants/engine/round_engine.py). */
module GoalScheduling {
  import opened Wrappers
  import opened Graphs
  import opened Goals
  import opened RoundManagers

  datatype Error = GoalCycleError | TaskOrderError | MissingProductError

  datatype Result<+T> = Ok(value: T) | Err(error: Error)

  /** Tasks are kept in reverse registration order, as they were visited. */
  datatype GoalInfo = GoalInfo(goal: string, tasks: seq<string>, dependencies: set<string>)

  // ---- What the declarations mean -------------------------------------------------------

  /** Task `n` of goal `g` requires a product of task `m` of goal `h`. */
  ghost predicate TaskNeeds(w: World, g: string, n: string, h: string, m: string) {
    w.HasTask(g, n) && exists p :: w.Requires(w.Type(g, n), p) && w.Produces(h, m, p)
  }

  ghost predicate GoalNeeds(w: World, g: string, h: string) {
    g != h && exists n, m :: TaskNeeds(w, g, n, h, m)
  }

  ghost function GoalEdges(w: World): set<(string, string)> {
    set g, h | g in w.registry && h in w.registry && GoalNeeds(w, g, h) :: (g, h)
  }

  /** A task of `g` needs a product of a task registered after it in `g`. */
  ghost predicate Misordered(w: World, g: string)
    requires g in w.registry
  {
    var names := w.registry[g].names;
    exists i, j :: 0 <= i < j < |names| && TaskNeeds(w, g, names[i], g, names[j])
  }

  ghost predicate LacksProduct(w: World, g: string)
    requires g in w.registry
  {
    exists n :: n in w.registry[g].types && w.Unsatisfiable(w.registry[g].types[n])
  }

  // ---- One goal -------------------------------------------------------------------------

  /** The `k`-th task of `g` has producers for all it insists on, none of them a later
      task of `g`. */
  ghost predicate TaskOk(w: World, g: string, k: nat)
    requires w.Valid() && g in w.registry && k < |w.registry[g].names|
  {
    var names := w.registry[g].names;
    && !w.Unsatisfiable(w.Type(g, names[k]))
    && (forall j :: k < j < |names| ==> !TaskNeeds(w, g, names[k], g, names[j]))
  }

  ghost predicate TaskWants(w: World, g: string, k: nat, h: string)
    requires w.Valid() && g in w.registry && k < |w.registry[g].names|
  {
    h != g && exists m :: TaskNeeds(w, g, w.registry[g].names[k], h, m)
  }

  function Reversed<T>(s: seq<T>): (r: seq<T>)
    ensures |r| == |s| && forall i :: 0 <= i < |s| ==> r[i] == s[|s| - 1 - i]
  {
    seq(|s|, i requires 0 <= i < |s| => s[|s| - 1 - i])
  }

  lemma ReversedTail<T>(s: seq<T>, k: nat)
    requires k < |s|
    ensures Reversed(s[k..]) == Reversed(s[k + 1..]) + [s[k]]
  {
  }

  /** The producers of what a task needs, split into goal dependencies and tasks of the
      same goal; one of the latter already visited is an ordering error. */
  method ClassifyProducers(g: string, t: TaskType, infos: set<ProducerInfo>, visited: set<TaskType>)
    returns (r: Result<set<string>>)
    ensures r.Err? ==> r.error == TaskOrderError
    ensures r.Err? <==> exists i :: i in infos && i.goal == g && i.taskType != t && i.taskType in visited
    ensures r.Ok? ==> r.value == set i | i in infos && i.goal != g :: i.goal
  {
    var todo, deps := infos, {};
    while todo != {}
      invariant todo <= infos
      invariant deps == set i | i in infos - todo && i.goal != g :: i.goal
      invariant forall i :: i in infos - todo && i.goal == g ==> i.taskType == t || i.taskType !in visited
    {
      var i :| i in todo;
      if i.goal == g {
        if i.taskType == t {
          // A task may produce what it itself needs.
        } else if i.taskType in visited {
          return Err(TaskOrderError);
        } else {
          // Registered before it, so it runs before it.
        }
      } else {
        deps := deps + {i.goal};
      }
      todo := todo - {i};
    }
    return Ok(deps);
  }

  ghost predicate InfosOf(w: World, t: TaskType, infos: set<ProducerInfo>) {
    forall i :: i in infos <==> w.Requires(t, i.product) && w.IsProducer(i)
  }

  ghost predicate VisitedFrom(w: World, g: string, k: nat, visited: set<TaskType>)
    requires g in w.registry && w.registry[g].Valid()
  {
    var names := w.registry[g].names;
    forall t :: t in visited <==> exists j :: k <= j < |names| && t == w.Type(g, names[j])
  }

  lemma ForeignProducers(w: World, g: string, n: string, infos: set<ProducerInfo>, h: string)
    requires w.HasTask(g, n) && InfosOf(w, w.Type(g, n), infos) && h != g
    ensures h in (set i | i in infos && i.goal != g :: i.goal) <==> exists m :: TaskNeeds(w, g, n, h, m)
  {
    if i :| i in infos && i.goal == h {
      var m :| w.Produces(h, m, i.product) && w.Type(h, m) == i.taskType;
      assert TaskNeeds(w, g, n, h, m);
    }
    if m :| TaskNeeds(w, g, n, h, m) {
      var p :| w.Requires(w.Type(g, n), p) && w.Produces(h, m, p);
      var i := ProducerInfo(p, w.Type(h, m), h);
      assert w.IsProducer(i) && i in infos;
    }
  }

  lemma VisitedSibling(w: World, g: string, k: nat, i: ProducerInfo, visited: set<TaskType>)
    requires w.Valid() && g in w.registry && k < |w.registry[g].names|
    requires VisitedFrom(w, g, k, visited)
    requires var t := w.Type(g, w.registry[g].names[k]); w.Requires(t, i.product) && i.taskType != t
    requires w.IsProducer(i) && i.goal == g && i.taskType in visited
    ensures var names := w.registry[g].names; exists j :: k < j < |names| && TaskNeeds(w, g, names[k], g, names[j])
  {
    var d := w.registry[g];
    var j :| k <= j < |d.names| && i.taskType == w.Type(g, d.names[j]);
    var m :| w.Produces(g, m, i.product) && w.Type(g, m) == i.taskType;
    TypesIdentifyTasks(d, m, d, d.names[j]);
    assert k < j && TaskNeeds(w, g, d.names[k], g, d.names[j]);
  }

  lemma LaterSibling(w: World, g: string, k: nat, j: nat, infos: set<ProducerInfo>)
    requires w.Valid() && g in w.registry && k < j < |w.registry[g].names|
    requires InfosOf(w, w.Type(g, w.registry[g].names[k]), infos)
    requires TaskNeeds(w, g, w.registry[g].names[k], g, w.registry[g].names[j])
    ensures var names := w.registry[g].names;
            exists i :: i in infos && i.goal == g && i.taskType == w.Type(g, names[j]) &&
                        i.taskType != w.Type(g, names[k])
  {
    var d := w.registry[g];
    var p :| w.Requires(w.Type(g, d.names[k]), p) && w.Produces(g, d.names[j], p);
    var i := ProducerInfo(p, w.Type(g, d.names[j]), g);
    assert w.IsProducer(i);
    if i.taskType == w.Type(g, d.names[k]) {
      TypesIdentifyTasks(d, d.names[k], d, d.names[j]);
    }
  }

  ghost predicate IsInfoOf(w: World, g: string, info: GoalInfo)
    requires g in w.registry
  {
    && info.goal == g
    && info.tasks == Reversed(w.registry[g].names)
    && (forall h :: h in info.dependencies <==> (g, h) in GoalEdges(w))
  }

  /** One round of the loop over a goal's tasks. */
  method InspectTask(w: World, g: string, k: nat, visited: set<TaskType>) returns (r: Result<set<string>>)
    requires w.Valid() && g in w.registry && k < |w.registry[g].names| && VisitedFrom(w, g, k, visited)
    ensures r.Ok? ==> TaskOk(w, g, k) && forall h :: h in r.value <==> TaskWants(w, g, k, h)
    ensures r == Err(MissingProductError) ==> LacksProduct(w, g)
    ensures r == Err(TaskOrderError) ==> Misordered(w, g)
    ensures r != Err(GoalCycleError)
  {
    ghost var names := w.registry[g].names;
    var t := w.Type(g, w.registry[g].names[k]);
    var manager := new RoundManager(w);
    manager.Prepare(t);
    var infos := manager.GetDependencies();
    if infos.None? {
      return Err(MissingProductError);
    }
    r := ClassifyProducers(g, t, infos.value, visited);
    if r.Err? {
      ghost var i :| i in infos.value && i.goal == g && i.taskType != t && i.taskType in visited;
      VisitedSibling(w, g, k, i, visited);
      return;
    }
    forall h | h != g
      ensures h in r.value <==> TaskWants(w, g, k, h)
    {
      ForeignProducers(w, g, names[k], infos.value, h);
    }
    forall j | k < j < |names|
      ensures !TaskNeeds(w, g, names[k], g, names[j])
    {
      if TaskNeeds(w, g, names[k], g, names[j]) {
        LaterSibling(w, g, k, j, infos.value);
      }
    }
  }

  /** The tasks from `k` on are in order, and `deps` are the goals they want. */
  ghost predicate InspectedFrom(w: World, g: string, k: nat, deps: set<string>)
    requires w.Valid() && g in w.registry
  {
    && (forall i :: k <= i < |w.registry[g].names| ==> TaskOk(w, g, i))
    && (forall i, h :: k <= i < |w.registry[g].names| && TaskWants(w, g, i, h) ==> h in deps)
    && (forall h :: h in deps ==> (g, h) in GoalEdges(w))
  }

  lemma WantsAreEdges(w: World, g: string, k: nat)
    requires w.Valid() && g in w.registry && k < |w.registry[g].names|
    ensures forall h :: TaskWants(w, g, k, h) ==> (g, h) in GoalEdges(w)
  {
  }

  lemma InspectedNext(w: World, g: string, k: nat, deps: set<string>, mine: set<string>)
    requires w.Valid() && g in w.registry && k < |w.registry[g].names| && InspectedFrom(w, g, k + 1, deps)
    requires TaskOk(w, g, k) && forall h :: h in mine <==> TaskWants(w, g, k, h)
    ensures InspectedFrom(w, g, k, deps + mine)
  {
    WantsAreEdges(w, g, k);
  }

  lemma EdgesAreWants(w: World, g: string)
    requires w.Valid() && g in w.registry
    ensures forall h :: (g, h) in GoalEdges(w) ==> exists i :: 0 <= i < |w.registry[g].names| && TaskWants(w, g, i, h)
  {
    var names := w.registry[g].names;
    forall h | (g, h) in GoalEdges(w)
      ensures exists i :: 0 <= i < |names| && TaskWants(w, g, i, h)
    {
      var n, m :| TaskNeeds(w, g, n, h, m);
      var i :| 0 <= i < |names| && names[i] == n;
      assert TaskWants(w, g, i, h);
    }
  }

  lemma AllTasksOk(w: World, g: string)
    requires w.Valid() && g in w.registry
    requires forall i :: 0 <= i < |w.registry[g].names| ==> TaskOk(w, g, i)
    ensures !LacksProduct(w, g) && !Misordered(w, g)
  {
    var d := w.registry[g];
    forall n | n in d.types
      ensures !w.Unsatisfiable(d.types[n])
    {
      var i :| 0 <= i < |d.names| && d.names[i] == n;
      assert TaskOk(w, g, i);
    }
    forall i, j | 0 <= i < j < |d.names|
      ensures !TaskNeeds(w, g, d.names[i], g, d.names[j])
    {
      assert TaskOk(w, g, i);
    }
  }

  lemma VisitOne(w: World, g: string, k: nat, visited: set<TaskType>)
    requires w.Valid() && g in w.registry && k < |w.registry[g].names| && VisitedFrom(w, g, k + 1, visited)
    ensures VisitedFrom(w, g, k, visited + {w.Type(g, w.registry[g].names[k])})
  {
  }

  /** The part of `_visit_goal` that looks at one goal: its tasks from last to first. */
  method Inspect(w: World, g: string) returns (r: Result<GoalInfo>)
    requires w.Valid() && g in w.registry
    ensures r.Ok? ==> IsInfoOf(w, g, r.value) && !LacksProduct(w, g) && !Misordered(w, g)
    ensures r == Err(MissingProductError) ==> LacksProduct(w, g)
    ensures r == Err(TaskOrderError) ==> Misordered(w, g)
    ensures r != Err(GoalCycleError)
  {
    var names := w.registry[g].names;
    var tasks: seq<string>, deps: set<string>, visited: set<TaskType> := [], {}, {};
    var k := |names|;
    while k > 0
      invariant 0 <= k <= |names| && tasks == Reversed(names[k..]) && VisitedFrom(w, g, k, visited)
      invariant InspectedFrom(w, g, k, deps)
    {
      k := k - 1;
      tasks := tasks + [names[k]];
      ReversedTail(names, k);
      VisitOne(w, g, k, visited);
      visited := visited + {w.Type(g, names[k])};
      var mine := InspectTask(w, g, k, visited);
      if mine.Err? {
        return Err(mine.error);
      }
      InspectedNext(w, g, k, deps, mine.value);
      deps := deps + mine.value;
    }
    EdgesAreWants(w, g);
    AllTasksOk(w, g);
    return Ok(GoalInfo(g, tasks, deps));
  }

  // ---- All goals reached from the requested ones -----------------------------------------

  /** Goal `g` has the fault that error `e` reports. */
  ghost predicate Faulty(w: World, g: string, e: Error)
    requires g in w.registry
  {
    match e
    case MissingProductError => LacksProduct(w, g)
    case TaskOrderError => Misordered(w, g)
    case GoalCycleError => false
  }

  /** Whatever was added to `before` has its edges within `now`. */
  ghost predicate SettledIn(E: set<(string, string)>, now: set<string>, before: set<string>) {
    forall x, y :: x in now && x !in before && (x, y) in E ==> y in now
  }

  lemma SettledTrans(E: set<(string, string)>, now: set<string>, between: set<string>, before: set<string>)
    requires SettledIn(E, between, before) && SettledIn(E, now, between) && between <= now
    ensures SettledIn(E, now, before)
  {
  }

  /** The ordered dictionary `goal_info_by_goal` that `_visit_goal` fills. */
  class GoalInfos {
    const w: World
    var order: seq<string>
    var infos: map<string, GoalInfo>

    constructor (w: World)
      requires w.Valid()
      ensures this.w == w && Valid() && infos == map[]
    {
      this.w, order, infos := w, [], map[];
    }

    ghost predicate Valid()
      reads this
    {
      && w.Valid()
      && NoDup(order) && (forall g :: g in order <==> g in infos)
      && (forall g :: g in infos ==>
            && g in w.registry && IsInfoOf(w, g, infos[g])
            && !LacksProduct(w, g) && !Misordered(w, g))
    }

    /** `x` was added since `before` and everything it needs is there. */
    ghost predicate Settled(before: set<string>)
      reads this
    {
      SettledIn(GoalEdges(w), infos.Keys, before)
    }

    /** What `_visit_goal` may add coming from `g`, and what an error it reports means. */
    ghost predicate Added(g: string, before: set<string>)
      reads this
    {
      before <= infos.Keys && forall x :: x in infos && x !in before ==> Reach(GoalEdges(w), g, x)
    }

    ghost predicate Blames(g: string, e: Error) {
      exists x :: x in w.registry && Reach(GoalEdges(w), g, x) && Faulty(w, x, e)
    }

    /** How many goals are not visited yet. */
    ghost function Left(visited: set<string>): nat {
      |w.registry.Keys - visited|
    }

    lemma FewerLeft(before: set<string>, now: set<string>)
      requires before <= now <= w.registry.Keys
      ensures Left(now) <= if before == now then Left(before) else Left(before) - 1
    {
      var left, left' := w.registry.Keys - before, w.registry.Keys - now;
      if g :| g in now && g !in before {
        assert g in left && g !in left';
      }
      SubsetSize(left', left);
    }

    lemma AddedAbove(g: string, h: string, before: set<string>, between: set<string>)
      requires (g, h) in GoalEdges(w) && Added(h, between)
      requires before <= between && forall x :: x in between && x !in before ==> Reach(GoalEdges(w), g, x)
      ensures Added(g, before)
    {
      forall x | x in infos && x !in before
        ensures Reach(GoalEdges(w), g, x)
      {
        if x !in between {
          ReachCons(GoalEdges(w), g, h, x);
        }
      }
    }

    lemma BlamesAbove(g: string, h: string, e: Error)
      requires (g, h) in GoalEdges(w) && Blames(h, e)
      ensures Blames(g, e)
    {
      var x :| x in w.registry && Reach(GoalEdges(w), h, x) && Faulty(w, x, e);
      ReachCons(GoalEdges(w), g, h, x);
    }

    method Note(g: string, info: GoalInfo)
      requires Valid() && g in w.registry && g !in infos
      requires IsInfoOf(w, g, info) && !LacksProduct(w, g) && !Misordered(w, g)
      modifies this
      ensures Valid() && infos == old(infos)[g := info]
    {
      order, infos := order + [g], infos[g := info];
    }

    /** `_visit_goal`: adds `g` and all it transitively needs, or reports the fault of a
        goal that `g` transitively needs. */
    method Visit(g: string) returns (e: Option<Error>)
      requires Valid() && g in w.registry
      modifies this
      ensures Valid() && Added(g, old(infos).Keys)
      ensures e.None? ==> g in infos && Settled(old(infos).Keys)
      ensures e.Some? ==> Blames(g, e.value)
      decreases Left(infos.Keys), 0
    {
      ReachRefl(GoalEdges(w), g);
      if g in infos {
        return None;
      }
      var info := Inspect(w, g);
      if info.Err? {
        return Some(info.error);
      }
      Note(g, info.value);
      FewerLeft(old(infos).Keys, infos.Keys);
      e := VisitAll(g, info.value.dependencies);
    }

    /** Visits `h`, which `g` needs, in the course of visiting `g`. */
    method VisitFrom(g: string, h: string, ghost before: set<string>) returns (e: Option<Error>)
      requires Valid() && h in w.registry && (g, h) in GoalEdges(w) && Added(g, before) && Settled(before)
      modifies this
      ensures Valid() && Added(g, before) && old(infos).Keys <= infos.Keys
      ensures e.None? ==> h in infos && Settled(before)
      ensures e.Some? ==> Blames(g, e.value)
      decreases Left(infos.Keys), 1
    {
      ghost var between := infos.Keys;
      e := Visit(h);
      AddedAbove(g, h, before, between);
      if e.Some? {
        BlamesAbove(g, h, e.value);
      } else {
        SettledTrans(GoalEdges(w), infos.Keys, between, before);
      }
    }

    /** The loop over the goals that `g` needs. */
    method VisitAll(g: string, needs: set<string>) returns (e: Option<Error>)
      requires Valid() && needs <= w.registry.Keys && forall h :: h in needs ==> (g, h) in GoalEdges(w)
      modifies this
      ensures Valid() && Added(g, old(infos).Keys)
      ensures e.None? ==> needs <= infos.Keys && Settled(old(infos).Keys)
      ensures e.Some? ==> Blames(g, e.value)
      decreases Left(infos.Keys), 2
    {
      var todo := needs;
      while todo != {}
        invariant Valid() && Added(g, old(infos).Keys) && Settled(old(infos).Keys)
        invariant todo <= needs && needs - todo <= infos.Keys
        decreases todo
      {
        var h :| h in todo;
        FewerLeft(old(infos).Keys, infos.Keys);
        e := VisitFrom(g, h, old(infos).Keys);
        if e.Some? {
          return;
        }
        todo := todo - {h};
      }
      return None;
    }
  }

  // ---- The topological sort ---------------------------------------------------------------

  ghost function InfoEdges(infos: map<string, GoalInfo>): set<(string, string)> {
    set g, h | g in infos && h in infos[g].dependencies :: (g, h)
  }

  ghost predicate NeedsListed(infos: map<string, GoalInfo>) {
    forall g :: g in infos ==> infos[g].dependencies <= infos.Keys
  }

  type Dependees = map<string, set<string>>

  ghost predicate Keyed(keys: seq<string>, m: Dependees) {
    NoDup(keys) && forall x :: x in keys <==> x in m
  }

  /** `add_dependee`: makes an entry for `g` and notes its dependee, if any. */
  method AddDependee(keys: seq<string>, m: Dependees, g: string, dependee: set<string>)
    returns (keys': seq<string>, m': Dependees)
    requires Keyed(keys, m)
    ensures Keyed(keys', m')
    ensures m' == m[g := Members(m, g) + dependee]
  {
    keys', m' := keys, m;
    if g !in m {
      keys' := keys + [g];
    }
    m' := m[g := Members(m, g) + dependee];
  }

  /** `m'` is `m` with `g` noted as a dependee of each of `deps`. */
  ghost predicate Noted(m: Dependees, g: string, deps: set<string>, m': Dependees) {
    m'.Keys == m.Keys + {g} + deps && forall h :: Members(m', h) == Members(m, h) + if h in deps then {g} else {}
  }

  lemma NotedNext(m: Dependees, g: string, deps: set<string>, m': Dependees, h: string)
    requires Noted(m, g, deps, m')
    ensures Noted(m, g, deps + {h}, m'[h := Members(m', h) + {g}])
  {
  }

  method AddDependees(keys: seq<string>, m: Dependees, g: string, deps: set<string>)
    returns (keys': seq<string>, m': Dependees)
    requires Keyed(keys, m)
    ensures Keyed(keys', m') && Noted(m, g, deps, m')
  {
    keys', m' := AddDependee(keys, m, g, {});
    var todo := deps;
    while todo != {}
      invariant todo <= deps && Keyed(keys', m') && Noted(m, g, deps - todo, m')
    {
      var h :| h in todo;
      NotedNext(m, g, deps - todo, m', h);
      keys', m' := AddDependee(keys', m', h, {g});
      assert deps - (todo - {h}) == deps - todo + {h};
      todo := todo - {h};
    }
    assert deps - todo == deps;
  }

  /** Turns goal dependencies around. */
  method CollectDependees(order: seq<string>, infos: map<string, GoalInfo>)
    returns (keys: seq<string>, m: Dependees)
    requires (forall g :: g in order <==> g in infos) && NeedsListed(infos)
    ensures Keyed(keys, m)
    ensures m.Keys == infos.Keys && forall g, h :: g in Members(m, h) <==> (g, h) in InfoEdges(infos)
  {
    keys, m := [], map[];
    for k := 0 to |order|
      invariant Keyed(keys, m) && m.Keys <= infos.Keys && forall g :: g in order[..k] ==> g in m
      invariant forall g, h :: g in Members(m, h) <==> g in order[..k] && h in infos[g].dependencies
    {
      assert order[..k + 1] == order[..k] + [order[k]];
      keys, m := AddDependees(keys, m, order[k], infos[order[k]].dependencies);
    }
    assert order[..|order|] == order;
  }

  /** The first pending goal all of whose dependees are satisfied, or the number of
      pending goals if there is none. */
  method FirstSatisfied(keys: seq<string>, m: Dependees, satisfied: set<string>) returns (i: nat)
    requires forall g :: g in keys ==> g in m
    ensures i <= |keys| && (i < |keys| ==> m[keys[i]] <= satisfied)
    ensures forall j :: 0 <= j < i ==> !(m[keys[j]] <= satisfied)
  {
    for k := 0 to |keys|
      invariant forall j :: 0 <= j < k ==> !(m[keys[j]] <= satisfied)
    {
      if m[keys[k]] <= satisfied {
        return k;
      }
    }
    return |keys|;
  }

  /** If every pending goal waits for another pending one, there is a cycle. */
  lemma StuckMeansCycle(E: set<(string, string)>, pending: set<string>)
    requires pending != {} && forall h :: h in pending ==> exists g :: g in pending && (g, h) in E
    ensures !Acyclic(E)
  {
    if Acyclic(E) {
      var a :| a in pending;
      SourceAbove(E, pending, a);
    }
  }

  /** `done` lists goals after their dependees; the `keys` still wait for some. */
  ghost predicate Sorting(E: set<(string, string)>, keys: seq<string>, m: Dependees, done: seq<string>) {
    && NoDup(keys) && NoDup(done)
    && (forall g :: g in keys ==> g in m && g !in done)
    && (forall g, h :: h in keys ==> (g in Members(m, h) <==> (g, h) in E))
    && (forall g, h :: (g, h) in E ==> (g in keys || g in done) && (h in keys || h in done))
    && (forall g, h :: (g, h) in E && h in done ==> Before(done, g, h))
  }

  lemma SatisfyOne(E: set<(string, string)>, done: seq<string>, h: string)
    requires forall x, y :: (x, y) in E && y in done ==> Before(done, x, y)
    requires (forall g :: (g, h) in E ==> g in done) && h !in done
    ensures forall x, y :: (x, y) in E && y in done + [h] ==> Before(done + [h], x, y)
  {
    forall x, y | (x, y) in E && y in done + [h]
      ensures Before(done + [h], x, y)
    {
      if y in done {
        var i, j :| 0 <= i < j < |done| && done[i] == x && done[j] == y;
        assert (done + [h])[i] == x && (done + [h])[j] == y;
      } else {
        var i :| 0 <= i < |done| && done[i] == x;
        assert (done + [h])[i] == x && (done + [h])[|done|] == y;
      }
    }
  }

  lemma SortStep(E: set<(string, string)>, keys: seq<string>, m: Dependees, done: seq<string>, i: nat)
    requires Sorting(E, keys, m, done) && i < |keys| && m[keys[i]] <= Elems(done)
    ensures Sorting(E, keys[..i] + keys[i + 1..], m - {keys[i]}, done + [keys[i]])
  {
    RemoveKeepsNames(keys, i);
    forall g | (g, keys[i]) in E
      ensures g in done
    {
      assert g in Members(m, keys[i]);
    }
    SatisfyOne(E, done, keys[i]);
  }

  lemma SortStuck(E: set<(string, string)>, keys: seq<string>, m: Dependees, done: seq<string>)
    requires Sorting(E, keys, m, done) && keys != []
    requires forall j :: 0 <= j < |keys| ==> !(m[keys[j]] <= Elems(done))
    ensures !Acyclic(E)
  {
    forall h | h in Elems(keys)
      ensures exists g :: g in Elems(keys) && (g, h) in E
    {
      var j :| 0 <= j < |keys| && keys[j] == h;
      var g :| g in m[h] && g !in Elems(done);
      assert g in Members(m, h);
    }
    assert keys[0] in Elems(keys);
    StuckMeansCycle(E, Elems(keys));
  }

  /** `_topological_sort`: fails exactly when the dependencies of the visited goals have a
      cycle; otherwise yields each goal once, after all of its dependees. */
  method TopologicalSort(order: seq<string>, infos: map<string, GoalInfo>) returns (r: Result<seq<string>>)
    requires (forall g :: g in order <==> g in infos) && NeedsListed(infos)
    ensures r.Ok? <==> Acyclic(InfoEdges(infos))
    ensures r.Err? ==> r.error == GoalCycleError
    ensures r.Ok? ==> NoDup(r.value) && forall g :: g in r.value <==> g in infos
    ensures r.Ok? ==> forall g, h :: (g, h) in InfoEdges(infos) ==> Before(r.value, g, h)
  {
    ghost var E := InfoEdges(infos);
    var keys, m := CollectDependees(order, infos);
    var done: seq<string>, satisfied: set<string> := [], {};
    while keys != []
      invariant Sorting(E, keys, m, done) && satisfied == Elems(done)
      invariant forall g :: g in infos <==> g in keys || g in done
      decreases |keys|
    {
      var i := FirstSatisfied(keys, m, satisfied);
      if i == |keys| {
        SortStuck(E, keys, m, done);
        return Err(GoalCycleError);
      }
      var goal := keys[i];
      SortStep(E, keys, m, done, i);
      RemoveKeepsNames(keys, i);
      satisfied, done := satisfied + {goal}, done + [goal];
      keys, m := keys[..i] + keys[i + 1..], m - {goal};
    }
    ForwardOrderAcyclic(E, done);
    return Ok(done);
  }
}
