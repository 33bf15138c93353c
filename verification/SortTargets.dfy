/** Inverting dependencies with cycle detection, and sorting targets from most dependent to
    least (src/python/pants/build_graph/build_graph.py). */
module SortTargets {
  import opened Wrappers
  import opened Graphs
  import opened Addresses
  import opened Walks
  import opened BuildGraphs

  datatype Error = CycleException(cycle: seq<Address>) | UnknownTarget

  /** `x` lies in the dependency closure of `ts`. */
  ghost predicate Depended(g: Graph, ts: seq<Address>, x: Address) {
    ReachFrom(g.Edges(), Elems(ts), x)
  }

  ghost predicate CycleFrom(g: Graph, ts: seq<Address>) {
    exists c :: IsCycle(g.Edges(), c) && Depended(g, ts, c[0])
  }

  ghost predicate UnknownFrom(g: Graph, ts: seq<Address>) {
    exists x :: Depended(g, ts, x) && x !in g.targets
  }

  /** `finished` lists targets, each after everything it depends on. */
  ghost predicate DependenciesFirst(E: set<(Address, Address)>, finished: seq<Address>) {
    NoDup(finished) && forall x, y :: x in finished && (x, y) in E ==> Before(finished, y, x)
  }

  lemma FinishOne(E: set<(Address, Address)>, finished: seq<Address>, t: Address)
    requires DependenciesFirst(E, finished) && t !in finished && forall y :: (t, y) in E ==> y in finished
    ensures DependenciesFirst(E, finished + [t])
  {
    BeforeAppend(finished, t);
  }

  class Inverter {
    const g: Graph
    var roots: set<Address>
    var inverted: map<Address, seq<Address>>
    var visited: set<Address>
    var path: seq<Address>
    ghost var finished: seq<Address>

    constructor (g: Graph)
      ensures this.g == g && Valid() && path == [] && finished == []
    {
      this.g, roots, inverted, visited, path, finished := g, {}, map[], {}, [], [];
    }

    /** The path is the stack of unfinished targets, each depending on the next. */
    ghost predicate PathValid()
      reads this
    {
      && NoDup(path) && (path == [] || IsPath(g.Edges(), path))
      && (forall x :: x in visited <==> x in finished || x in path)
      && (forall x :: x in finished ==> x !in path)
    }

    /** Dependencies of finished targets are inverted; nothing else is but, in part, those of
        targets on the path. */
    ghost predicate InvertedValid()
      reads this
    {
      && (forall x, y :: x in At(inverted, y) ==> (x, y) in g.Edges() && x in visited)
      && (forall x, y :: x in finished && (x, y) in g.Edges() ==> x in At(inverted, y))
      && (forall x :: x in roots <==> x in finished && At(g.dependencies, x) == [])
    }

    ghost predicate Valid()
      reads this
    {
      visited <= g.targets.Keys && PathValid() && DependenciesFirst(g.Edges(), finished) && InvertedValid()
    }

    /** Target `t` may be looked at next, coming from `root`. */
    ghost predicate Enters(root: Address, t: Address)
      reads this
    {
      if path == [] then t == root else path[0] == root && (path[|path| - 1], t) in g.Edges()
    }

    ghost predicate Explains(root: Address, e: Error) {
      match e
      case CycleException(c) => IsCycle(g.Edges(), c) && Reach(g.Edges(), root, c[0])
      case UnknownTarget => exists x :: Reach(g.Edges(), root, x) && x !in g.targets
    }

    lemma EntersReach(root: Address, t: Address)
      requires Valid() && Enters(root, t)
      ensures Reach(g.Edges(), root, t)
      ensures forall k :: 0 <= k < |path| ==> Reach(g.Edges(), root, path[k])
    {
      ReachRefl(g.Edges(), root);
      forall k | 0 <= k < |path|
        ensures Reach(g.Edges(), root, path[k])
      {
        assert Connects(g.Edges(), path[..k + 1], root, path[k]);
      }
      if path != [] {
        ReachSnoc(g.Edges(), root, path[|path| - 1], t);
      }
    }

    lemma PathCycle(k: nat, t: Address)
      requires Valid() && k < |path| && path[k] == t && (path[|path| - 1], t) in g.Edges()
      ensures IsCycle(g.Edges(), path[k..] + [t])
    {
      var c := path[k..] + [t];
      forall i, j | 0 <= i < j < |c| && j == i + 1
        ensures (c[i], c[j]) in g.Edges()
      {
        if j < |c| - 1 {
          assert (path[k + i], path[k + j]) in g.Edges();
        }
      }
    }

    ghost predicate Kept(inv: map<Address, seq<Address>>)
      reads this
    {
      forall x, y :: x in At(inv, y) ==> x in At(inverted, y)
    }

    /** Puts a new target on the path. */
    method Push(t: Address)
      requires Valid() && t !in visited && t in g.targets
      requires path == [] || (path[|path| - 1], t) in g.Edges()
      modifies this`path, this`visited
      ensures Valid() && path == old(path) + [t] && visited == old(visited) + {t}
    {
      path, visited := path + [t], visited + {t};
    }

    /** Notes that `t`, on top of the path, depends on `d`. */
    method Record(t: Address, d: Address)
      requires Valid() && path != [] && t == path[|path| - 1] && (t, d) in g.Edges()
      modifies this`inverted
      ensures Valid() && Kept(old(inverted)) && t in At(inverted, d)
    {
      AddMembers(inverted, d, t);
      if t !in At(inverted, d) {
        inverted := Add(inverted, d, t);
      }
    }

    /** Takes `t`, whose dependencies are finished and inverted, off the path. */
    method Pop(t: Address)
      requires Valid() && path != [] && t == path[|path| - 1]
      requires forall y :: (t, y) in g.Edges() ==> y in finished && t in At(inverted, y)
      modifies this`path, this`roots, this`finished
      ensures Valid() && path == old(path)[..|old(path)| - 1] && finished == old(finished) + [t]
    {
      FinishOne(g.Edges(), finished, t);
      assert t !in path[..|path| - 1];
      if At(g.dependencies, t) == [] {
        roots := roots + {t};
      }
      path, finished := path[..|path| - 1], finished + [t];
    }

    /** New finished targets are depended on by `root`. */
    ghost predicate Reaches(root: Address, before: seq<Address>)
      reads this
    {
      before <= finished && forall x :: x in finished && x !in before ==> Reach(g.Edges(), root, x)
    }

    /** The cycle that leads back to a target on the path. */
    method ReportCycle(t: Address, ghost root: Address) returns (e: Error)
      requires Valid() && Enters(root, t) && t in path
      ensures Explains(root, e)
    {
      EntersReach(root, t);
      var head := IndexOf(path, t);
      PathCycle(head, t);
      return CycleException(path[head..] + [t]);
    }

    /** The recursive part of `invert_dependencies`. */
    method Invert(t: Address, ghost root: Address) returns (e: Option<Error>)
      requires Valid() && Enters(root, t)
      modifies this
      ensures e.Some? ==> Explains(root, e.value)
      ensures e.None? ==> Valid() && path == old(path) && t in finished && old(visited) <= visited
      ensures e.None? ==> Reaches(root, old(finished)) && Kept(old(inverted))
      decreases g.targets.Keys - visited, 1
    {
      if t in path {
        var cycle := ReportCycle(t, root);
        return Some(cycle);
      }
      if t in visited {
        return None;
      }
      EntersReach(root, t);
      if t !in g.targets {
        return Some(UnknownTarget);
      }
      e := InvertNew(t, root);
    }

    /** A target that was not visited before. */
    method InvertNew(t: Address, ghost root: Address) returns (e: Option<Error>)
      requires Valid() && Enters(root, t) && t !in visited && t in g.targets && Reach(g.Edges(), root, t)
      modifies this
      ensures e.Some? ==> Explains(root, e.value)
      ensures e.None? ==> Valid() && path == old(path) && t in finished && old(visited) <= visited
      ensures e.None? ==> Reaches(root, old(finished)) && Kept(old(inverted))
      decreases g.targets.Keys - visited, 0
    {
      Push(t);
      e := InvertAll(t, root, At(g.dependencies, t));
      if e.Some? {
        return;
      }
      forall y | (t, y) in g.Edges()
        ensures y in At(g.dependencies, t)
      {
        EdgeMeans(g, t, y);
      }
      Pop(t);
    }

    /** The loop over the dependencies of the target on top of the path. */
    method InvertAll(t: Address, ghost root: Address, deps: seq<Address>) returns (e: Option<Error>)
      requires Valid() && path != [] && path[0] == root && t == path[|path| - 1] && deps == At(g.dependencies, t)
      modifies this
      ensures e.Some? ==> Explains(root, e.value)
      ensures e.None? ==> Valid() && path == old(path) && Reaches(root, old(finished)) && Kept(old(inverted))
      ensures e.None? ==> old(visited) <= visited
      ensures e.None? ==> forall y :: y in deps ==> y in finished && t in At(inverted, y)
      decreases g.targets.Keys - visited, 2
    {
      for i := 0 to |deps|
        invariant Valid() && path == old(path) && Reaches(root, old(finished)) && Kept(old(inverted))
        invariant old(visited) <= visited
        invariant forall y :: y in deps[..i] ==> y in finished && t in At(inverted, y)
      {
        assert deps[..i + 1] == deps[..i] + [deps[i]];
        EdgeMeans(g, t, deps[i]);
        Record(t, deps[i]);
        e := Invert(deps[i], root);
        if e.Some? {
          return;
        }
      }
      assert deps[..|deps|] == deps;
      return None;
    }
  }

  // ---- The results ---------------------------------------------------------------------------

  /** The dependencies of the finished targets. */
  ghost function Within(E: set<(Address, Address)>, S: seq<Address>): set<(Address, Address)> {
    set e | e in E && e.0 in S
  }

  /** Listing targets after their dependencies shows that there is no cycle among them. */
  lemma FinishedAcyclic(E: set<(Address, Address)>, finished: seq<Address>)
    requires DependenciesFirst(E, finished)
    ensures Acyclic(Within(E, finished)) && Closed(E, Elems(finished))
  {
    var F := Within(E, finished);
    var R := Reverse(F);
    forall b, a | (b, a) in R
      ensures Before(finished, b, a)
    {
      ReverseEdge(F, b, a);
    }
    ForwardOrderAcyclic(R, finished);
    forall a, b | (a, b) in F && Reach(F, b, a)
      ensures false
    {
      ReverseEdge(F, b, a);
      ReverseReach(F, b, a);
    }
  }

  lemma NoCycleWithin(E: set<(Address, Address)>, finished: seq<Address>, c: seq<Address>)
    requires DependenciesFirst(E, finished) && IsCycle(E, c)
    ensures c[0] !in finished
  {
    if c[0] in finished {
      FinishedAcyclic(E, finished);
      PathInClosed(E, Elems(finished), c);
      var F := Within(E, finished);
      assert IsPath(F, c) by {
        forall i, j | 0 <= i < j < |c| && j == i + 1
          ensures (c[i], c[j]) in F
        {
          assert c[i] in c;
        }
      }
      AcyclicMeansNoCycle(F);
      assert IsCycle(F, c);
    }
  }

  /** What a successful inversion found. */
  ghost predicate IsInversion(g: Graph, ts: seq<Address>, roots: set<Address>, inverted: map<Address, seq<Address>>,
                              finished: seq<Address>) {
    && DependenciesFirst(g.Edges(), finished)
    && (forall x :: x in finished <==> Depended(g, ts, x))
    && (forall x, y :: x in At(inverted, y) <==> x in finished && (x, y) in g.Edges())
    && (forall x :: x in roots <==> x in finished && At(g.dependencies, x) == [])
  }

  lemma Inverted(g: Graph, ts: seq<Address>, finished: seq<Address>)
    requires DependenciesFirst(g.Edges(), finished) && (forall x :: x in ts ==> x in finished)
    requires forall x :: x in finished ==> x in g.targets
    ensures forall x :: Depended(g, ts, x) ==> x in finished
    ensures !CycleFrom(g, ts) && !UnknownFrom(g, ts)
  {
    FinishedAcyclic(g.Edges(), finished);
    forall x | Depended(g, ts, x)
      ensures x in finished
    {
      var r :| r in Elems(ts) && Reach(g.Edges(), r, x);
      ReachInClosed(g.Edges(), Elems(finished), r, x);
      assert x in Elems(finished);
    }
    forall c | IsCycle(g.Edges(), c)
      ensures !Depended(g, ts, c[0])
    {
      NoCycleWithin(g.Edges(), finished, c);
    }
  }

  /** `invert_dependencies`: raises for a cycle only if the targets depend on one, and then
      reports it; raises for an unknown target only if they depend on one; otherwise inverts
      exactly the dependencies of everything they depend on, which has neither. */
  method InvertDependencies(g: Graph, ts: seq<Address>)
    returns (e: Option<Error>, roots: set<Address>, inverted: map<Address, seq<Address>>, ghost finished: seq<Address>)
    ensures e.None? ==> !CycleFrom(g, ts) && !UnknownFrom(g, ts) && IsInversion(g, ts, roots, inverted, finished)
    ensures e.Some? && e.value.CycleException? ==>
              IsCycle(g.Edges(), e.value.cycle) && Depended(g, ts, e.value.cycle[0])
    ensures e.Some? && e.value.UnknownTarget? ==> UnknownFrom(g, ts)
    ensures !UnknownFrom(g, ts) ==> (e.Some? <==> CycleFrom(g, ts))
  {
    var inv := new Inverter(g);
    for i := 0 to |ts|
      invariant fresh(inv) && inv.g == g && inv.Valid() && inv.path == []
      invariant forall x :: x in ts[..i] ==> x in inv.finished
      invariant forall x :: x in inv.finished ==> Depended(g, ts, x)
    {
      assert ts[..i + 1] == ts[..i] + [ts[i]];
      assert ts[i] in Elems(ts);
      e := inv.Invert(ts[i], ts[i]);
      if e.Some? {
        return e, {}, map[], [];
      }
    }
    assert ts[..|ts|] == ts;
    Inverted(g, ts, inv.finished);
    return None, inv.roots, inv.inverted, inv.finished;
  }

  /** The view of the second phase: from a target to those that depend on it. */
  function InvertedView(inverted: map<Address, seq<Address>>, known: set<Address>): View<Address> {
    View(known, inverted, a => true, (a, b) => true)
  }

  lemma InvertedEdges(g: Graph, ts: seq<Address>, roots: set<Address>, inverted: map<Address, seq<Address>>,
                      finished: seq<Address>, known: set<Address>)
    requires IsInversion(g, ts, roots, inverted, finished)
    ensures InvertedView(inverted, known).Edges() == Reverse(Within(g.Edges(), finished))
  {
    var v, F := InvertedView(inverted, known), Within(g.Edges(), finished);
    forall a, b
      ensures (a, b) in v.Edges() <==> (a, b) in Reverse(F)
    {
      ViewEdge(v, a, b);
      assert v.Succ(a) == At(inverted, a);
      ReverseEdge(F, a, b);
    }
    SameEdges(v.Edges(), Reverse(F));
  }

  /** Going down dependencies ends at a target without any. */
  lemma {:induction false} ReachesLeaf(g: Graph, F: set<(Address, Address)>, S: set<Address>, x: Address)
    requires Acyclic(F) && Closed(F, S) && x in S && forall a, b :: a in S && b in At(g.dependencies, a) ==> (a, b) in F
    ensures exists leaf :: leaf in S && At(g.dependencies, leaf) == [] && Reach(F, x, leaf)
    decreases Rank(F, x)
  {
    if At(g.dependencies, x) == [] {
      ReachRefl(F, x);
    } else {
      var y := At(g.dependencies, x)[0];
      assert y in At(g.dependencies, x);
      RankDecreases(F, x, y);
      ReachesLeaf(g, F, S, y);
      var leaf :| leaf in S && At(g.dependencies, leaf) == [] && Reach(F, y, leaf);
      ReachCons(F, x, y, leaf);
    }
  }

  lemma LeavesReachAll(g: Graph, ts: seq<Address>, roots: seq<Address>, inverted: map<Address, seq<Address>>,
                       finished: seq<Address>, x: Address)
    requires IsInversion(g, ts, Elems(roots), inverted, finished)
    ensures ReachFrom(Reverse(Within(g.Edges(), finished)), Elems(roots), x) <==> x in finished
  {
    var F, S := Within(g.Edges(), finished), Elems(finished);
    FinishedAcyclic(g.Edges(), finished);
    if x in finished {
      forall a, b | a in S && b in At(g.dependencies, a)
        ensures (a, b) in F
      {
        EdgeMeans(g, a, b);
      }
      assert x in S;
      ReachesLeaf(g, F, S, x);
      var leaf :| leaf in S && At(g.dependencies, leaf) == [] && Reach(F, x, leaf);
      ReverseReach(F, x, leaf);
    }
    if leaf :| leaf in Elems(roots) && Reach(Reverse(F), leaf, x) {
      ReverseReach(F, x, leaf);
      if x != leaf {
        var y := ReachFirst(F, x, leaf);
      }
    }
  }

  /** The sorted targets: exactly those depended on, each once, before its dependencies. */
  ghost predicate IsSorted(g: Graph, ts: seq<Address>, out: seq<Address>) {
    && NoDup(out) && (forall x :: x in out <==> Depended(g, ts, x))
    && (forall x, y :: x in out && (x, y) in g.Edges() ==> Before(out, x, y))
  }

  lemma SecondPhase(g: Graph, ts: seq<Address>, roots: seq<Address>, inverted: map<Address, seq<Address>>,
                    finished: seq<Address>, out: seq<Address>)
    requires IsInversion(g, ts, Elems(roots), inverted, finished)
    requires var v := InvertedView(inverted, g.targets.Keys); IsClosure(v, roots, out) && ChildrenFirst(v, out)
    ensures IsSorted(g, ts, out)
  {
    var v, F := InvertedView(inverted, g.targets.Keys), Within(g.Edges(), finished);
    InvertedEdges(g, ts, Elems(roots), inverted, finished, g.targets.Keys);
    FinishedAcyclic(g.Edges(), finished);
    forall x
      ensures x in out <==> x in finished
    {
      LeavesReachAll(g, ts, roots, inverted, finished, x);
    }
    forall x, y | x in out && (x, y) in g.Edges()
      ensures Before(out, x, y)
    {
      assert (x, y) in F && y in Elems(finished);
      ReverseEdge(F, y, x);
      ReverseReach(F, y, x);
    }
  }

  lemma NothingUnknown(g: Graph, ts: seq<Address>, roots: seq<Address>, inverted: map<Address, seq<Address>>,
                       finished: seq<Address>)
    requires IsInversion(g, ts, Elems(roots), inverted, finished) && !UnknownFrom(g, ts)
    ensures !Broken(InvertedView(inverted, g.targets.Keys), roots)
  {
    assert forall r :: r in roots <==> r in Elems(roots);
    assert forall x, y :: y in InvertedView(inverted, g.targets.Keys).Succ(x) ==> y in At(inverted, x);
  }

  /** The members of a set, in some order. */
  method Listing(s: set<Address>) returns (r: seq<Address>)
    ensures Elems(r) == s
  {
    r := [];
    var todo := s;
    while todo != {}
      invariant todo <= s && Elems(r) == s - todo
    {
      var x :| x in todo;
      assert Elems(r + [x]) == Elems(r) + {x};
      r, todo := r + [x], todo - {x};
    }
  }

  /** `sort_targets`. */
  method Sort(g: Graph, ts: seq<Address>) returns (e: Option<Error>, out: seq<Address>)
    ensures e.None? ==> IsSorted(g, ts, out) && !CycleFrom(g, ts) && !UnknownFrom(g, ts)
    ensures e.Some? && e.value.CycleException? ==>
              IsCycle(g.Edges(), e.value.cycle) && Depended(g, ts, e.value.cycle[0])
    ensures e.Some? && e.value.UnknownTarget? ==> UnknownFrom(g, ts)
    ensures !UnknownFrom(g, ts) ==> (e.Some? <==> CycleFrom(g, ts))
  {
    var roots, inverted;
    ghost var finished;
    e, roots, inverted, finished := InvertDependencies(g, ts);
    if e.Some? {
      return e, [];
    }
    var leaves := Listing(roots);
    var v := InvertedView(inverted, g.targets.Keys);
    var r := DepthFirst(v, leaves, true);
    NothingUnknown(g, ts, leaves, inverted, finished);
    SecondPhase(g, ts, leaves, inverted, finished, r.value);
    return None, r.value;
  }
}
