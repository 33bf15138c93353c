/** Substituting aliases by what they stand for
    (src/python/pants/core_tasks/substitute_aliased_targets.py). */
module Aliases {
  import opened Wrappers
  import opened Graphs
  import opened Addresses
  import opened BuildGraphs
  import opened Closures
  import opened Contexts
  import opened Fingerprints

  // ---- Paths through a set of vertices ----------------------------------------------------

  ghost predicate IsVia(E: set<(Address, Address)>, S: set<Address>, p: seq<Address>, a: Address, b: Address) {
    |p| >= 2 && Connects(E, p, a, b) && forall i :: 0 < i < |p| - 1 ==> p[i] in S
  }

  /** There is a path of at least one edge from `a` to `b` whose inner vertices are in `S`. */
  ghost predicate Via(E: set<(Address, Address)>, S: set<Address>, a: Address, b: Address) {
    exists p :: IsVia(E, S, p, a, b)
  }

  lemma ViaEdge(E: set<(Address, Address)>, S: set<Address>, a: Address, b: Address)
    requires (a, b) in E
    ensures Via(E, S, a, b)
  {
    assert IsVia(E, S, [a, b], a, b);
  }

  lemma ViaNone(E: set<(Address, Address)>, a: Address, b: Address)
    ensures Via(E, {}, a, b) <==> (a, b) in E
  {
    var none: set<Address> := {};
    if Via(E, none, a, b) {
      var p :| IsVia(E, none, p, a, b);
      assert (p[0], p[1]) in E;
    } else if (a, b) in E {
      ViaEdge(E, none, a, b);
    }
  }

  lemma ViaMono(E: set<(Address, Address)>, S: set<Address>, T: set<Address>, a: Address, b: Address)
    requires S <= T && Via(E, S, a, b)
    ensures Via(E, T, a, b)
  {
    var p :| IsVia(E, S, p, a, b);
    assert IsVia(E, T, p, a, b);
  }

  lemma ViaJoin(E: set<(Address, Address)>, S: set<Address>, a: Address, v: Address, b: Address)
    requires v in S && Via(E, S, a, v) && Via(E, S, v, b)
    ensures Via(E, S, a, b)
  {
    var p :| IsVia(E, S, p, a, v);
    var q :| IsVia(E, S, q, v, b);
    var r := p + q[1..];
    forall i, j | 0 <= i < j < |r| && j == i + 1
      ensures (r[i], r[j]) in E
    {
      if j >= |p| {
        assert r[i] == q[i - |p| + 1] && r[j] == q[j - |p| + 1];
      }
    }
    assert IsVia(E, S, r, a, b);
  }

  lemma ViaCons(E: set<(Address, Address)>, S: set<Address>, a: Address, c: Address, b: Address)
    requires (a, c) in E && c in S && Via(E, S, c, b)
    ensures Via(E, S, a, b)
  {
    ViaEdge(E, S, a, c);
    ViaJoin(E, S, a, c, b);
  }

  /** A path through `S` and `v` either avoids `v` or splits at `v`. */
  lemma {:induction false} ViaSplit(E: set<(Address, Address)>, S: set<Address>, v: Address, p: seq<Address>)
    requires |p| >= 2 && IsVia(E, S + {v}, p, p[0], p[|p| - 1])
    ensures var a, b := p[0], p[|p| - 1]; Via(E, S, a, b) || (Via(E, S, a, v) && Via(E, S, v, b))
    decreases |p|
  {
    var a, c, b := p[0], p[1], p[|p| - 1];
    assert (a, c) in E;
    ViaEdge(E, S, a, c);
    if |p| > 2 {
      assert IsVia(E, S + {v}, p[1..], c, b);
      ViaSplit(E, S, v, p[1..]);
      if c in S {
        if Via(E, S, c, b) {
          ViaCons(E, S, a, c, b);
        } else {
          ViaCons(E, S, a, c, v);
        }
      }
    }
  }

  lemma ViaStep(E: set<(Address, Address)>, S: set<Address>, v: Address, a: Address, b: Address)
    ensures Via(E, S + {v}, a, b) <==> Via(E, S, a, b) || (Via(E, S, a, v) && Via(E, S, v, b))
  {
    if Via(E, S + {v}, a, b) {
      var p :| IsVia(E, S + {v}, p, a, b);
      ViaSplit(E, S, v, p);
    } else if Via(E, S, a, b) {
      ViaMono(E, S, S + {v}, a, b);
    } else if Via(E, S, a, v) && Via(E, S, v, b) {
      ViaMono(E, S, S + {v}, a, v);
      ViaMono(E, S, S + {v}, v, b);
      ViaJoin(E, S + {v}, a, v, b);
    }
  }

  /** `F` has exactly the edges that are paths through `S` in `E`. */
  ghost predicate IsBypass(E: set<(Address, Address)>, S: set<Address>, F: set<(Address, Address)>) {
    forall a, b :: (a, b) in F <==> Via(E, S, a, b)
  }

  lemma {:induction false} BypassPath(E: set<(Address, Address)>, S: set<Address>, F: set<(Address, Address)>,
                                      p: seq<Address>)
    requires IsBypass(E, S, F) && IsPath(F, p)
    ensures Reach(E, p[0], p[|p| - 1])
    decreases |p|
  {
    if |p| == 1 {
      ReachRefl(E, p[0]);
    } else {
      BypassPath(E, S, F, p[1..]);
      assert (p[0], p[1]) in F;
      var q :| IsVia(E, S, q, p[0], p[1]);
      ReachTrans(E, p[0], p[1], p[|p| - 1]);
    }
  }

  lemma BypassAcyclic(E: set<(Address, Address)>, S: set<Address>, F: set<(Address, Address)>)
    requires IsBypass(E, S, F) && E <= F && forall a, b :: Reach(F, a, b) <==> Reach(E, a, b)
    ensures Acyclic(F) <==> Acyclic(E)
  {
    forall a, b | (a, b) in F && Reach(F, b, a)
      ensures !Acyclic(E)
    {
      var q :| IsVia(E, S, q, a, b);
      assert (q[0], q[1]) in E;
      assert Connects(E, q[1..], q[1], b);
      ReachTrans(E, q[1], b, a);
    }
  }

  /** Bypassing adds and removes no reachability, and no cycle. */
  lemma BypassKeepsReach(E: set<(Address, Address)>, S: set<Address>, F: set<(Address, Address)>)
    requires IsBypass(E, S, F)
    ensures E <= F
    ensures forall a, b :: Reach(F, a, b) <==> Reach(E, a, b)
    ensures Acyclic(F) <==> Acyclic(E)
  {
    forall a, b | (a, b) in E
      ensures (a, b) in F
    {
      ViaEdge(E, S, a, b);
    }
    assert E <= F by {
      forall e | e in E
        ensures e in F
      {
        assert e == (e.0, e.1);
      }
    }
    forall a, b
      ensures Reach(F, a, b) <==> Reach(E, a, b)
    {
      if Reach(E, a, b) {
        ReachMono(E, F, a, b);
      }
      if Reach(F, a, b) {
        var p :| Connects(F, p, a, b);
        BypassPath(E, S, F, p);
      }
    }
    BypassAcyclic(E, S, F);
  }

  // ---- Injecting dependencies into dependees --------------------------------------------------

  ghost predicate Cleared(caches: set<TargetsCache>)
    reads caches
  {
    forall c :: c in caches ==> c.entries == map[]
  }

  /** Either nothing happened, or the caches that listen to the graph were cleared. */
  twostate predicate Invalidates(graph: BuildGraph)
    reads graph, graph.callbacks
  {
    && graph.callbacks == old(graph.callbacks) && graph.targets == old(graph.targets)
    && (Cleared(graph.callbacks) || (graph.Now() == old(graph.Now()) && unchanged(graph.callbacks)))
  }

  /** Gives `d` the dependencies `deps` in turn, stopping at one that is not in the graph. */
  method InjectEach(graph: BuildGraph, d: Address, deps: seq<Address>) returns (ok: bool, ghost j: nat)
    requires graph.Valid() && d in graph.targets
    modifies graph, graph.callbacks
    ensures graph.Valid() && Invalidates(graph)
    ensures j <= |deps| && graph.Now() == old(graph.Now()).WithDependencies(d, deps[..j])
    ensures ok <==> j == |deps|
    ensures ok <==> forall w :: w in deps ==> w in graph.targets
  {
    ghost var g := graph.Now();
    for i := 0 to |deps|
      invariant graph.Valid() && Invalidates(graph)
      invariant graph.Now() == g.WithDependencies(d, deps[..i])
      invariant forall w :: w in deps[..i] ==> w in graph.targets
    {
      assert deps[..i + 1][..i] == deps[..i] && deps[..i + 1] == deps[..i] + [deps[i]];
      if deps[i] !in graph.targets {
        return false, i;
      }
      var _ := graph.InjectDependency(d, deps[i]);
    }
    assert deps[..|deps|] == deps;
    return true, |deps|;
  }

  /** `F` is `E` with an edge from `d` to each of `ws`. */
  ghost predicate Gains(E: set<(Address, Address)>, d: Address, ws: seq<Address>, F: set<(Address, Address)>) {
    F == E + set w | w in ws :: (d, w)
  }

  /** One dependee of `v` gets the dependencies of `v`, which keeps its own. */
  method InjectInto(graph: BuildGraph, d: Address, v: Address) returns (ok: bool)
    requires graph.Valid() && d in graph.targets
    modifies graph, graph.callbacks
    ensures graph.Valid() && Invalidates(graph) && Extends(old(graph.Now()), graph.Now())
    ensures At(graph.dependencies, v) == At(old(graph.dependencies), v)
    ensures ok <==> forall w :: w in At(old(graph.dependencies), v) ==> w in graph.targets
    ensures ok ==> Gains(old(graph.Now()).Edges(), d, At(old(graph.dependencies), v), graph.Now().Edges())
  {
    ghost var g := graph.Now();
    var deps := At(graph.dependencies, v);
    ghost var j;
    ok, j := InjectEach(graph, d, deps);
    DependenciesKeepValid(g, d, deps[..j]);
    InjectionFrame(g, d, deps[..j]);
    if d == v {
      DependenciesThere(g, d, deps[..j]);
    }
    assert deps[..|deps|] == deps;
  }

  /** `F` has the edges of `E`, and one from each of `ds` to each of `ws`. */
  ghost predicate Joins(E: set<(Address, Address)>, ds: seq<Address>, ws: seq<Address>, F: set<(Address, Address)>) {
    forall x, y :: (x, y) in F <==> (x, y) in E || (x in ds && y in ws)
  }

  /** Every one of `dependees` gets the dependencies of `v`. */
  method InjectIntoAll(graph: BuildGraph, dependees: seq<Address>, v: Address) returns (ok: bool)
    requires graph.Valid() && forall d :: d in dependees ==> d in graph.targets
    modifies graph, graph.callbacks
    ensures graph.Valid() && Invalidates(graph) && Extends(old(graph.Now()), graph.Now())
    ensures ok <==> dependees == [] || forall w :: w in At(old(graph.dependencies), v) ==> w in graph.targets
    ensures ok ==> Joins(old(graph.Now()).Edges(), dependees, At(old(graph.dependencies), v), graph.Now().Edges())
  {
    ghost var E, deps := graph.Now().Edges(), At(graph.dependencies, v);
    for i := 0 to |dependees|
      invariant graph.Valid() && Invalidates(graph) && At(graph.dependencies, v) == deps
      invariant Extends(old(graph.Now()), graph.Now())
      invariant i > 0 ==> forall w :: w in deps ==> w in graph.targets
      invariant Joins(E, dependees[..i], deps, graph.Now().Edges())
    {
      ghost var F := graph.Now().Edges();
      assert dependees[..i + 1] == dependees[..i] + [dependees[i]];
      ok := InjectInto(graph, dependees[i], v);
      if !ok {
        return;
      }
    }
    assert dependees[..|dependees|] == dependees;
    return true;
  }

  /** `v` is known, and if anything depends on it, so are its own dependencies. */
  ghost predicate Injectable(known: set<Address>, E: set<(Address, Address)>, v: Address) {
    v in known && forall x, w :: (x, v) in E && (v, w) in E ==> w in known
  }

  lemma DependeesAre(g: Graph, v: Address)
    requires g.Valid()
    ensures forall x :: x in At(g.dependees, v) <==> (x, v) in g.Edges()
    ensures forall y :: y in At(g.dependencies, v) <==> (v, y) in g.Edges()
    ensures forall x :: x in At(g.dependees, v) ==> x in g.targets
  {
    forall x
      ensures x in At(g.dependees, v) <==> (x, v) in g.Edges()
      ensures x in At(g.dependencies, v) <==> (v, x) in g.Edges()
      ensures x in At(g.dependees, v) ==> x in g.targets
    {
      EdgeMeans(g, x, v);
      EdgeMeans(g, v, x);
      assert v in At(g.dependencies, x) <==> x in At(g.dependees, v);
    }
  }

  /** `_inject_dependencies_into_dependees`: every dependee of `v` gets the dependencies of
      `v`. The dependencies are looked up only if there is a dependee. */
  method InjectIntoDependees(graph: BuildGraph, v: Address) returns (ok: bool)
    requires graph.Valid()
    modifies graph, graph.callbacks
    ensures graph.Valid() && Invalidates(graph) && Extends(old(graph.Now()), graph.Now())
    ensures ok <==> Injectable(graph.targets.Keys, old(graph.Now()).Edges(), v)
    ensures ok ==> forall x, y :: (x, y) in graph.Now().Edges() <==>
              || (x, y) in old(graph.Now()).Edges()
              || ((x, v) in old(graph.Now()).Edges() && (v, y) in old(graph.Now()).Edges())
  {
    if v !in graph.targets {
      return false;
    }
    DependeesAre(graph.Now(), v);
    ghost var none := At(graph.dependees, v) == [];
    assert none || At(graph.dependees, v)[0] in At(graph.dependees, v);
    ok := InjectIntoAll(graph, At(graph.dependees, v), v);
  }

  lemma BypassNothing(E: set<(Address, Address)>)
    ensures IsBypass(E, Elems([]), E)
  {
    assert Elems<Address>([]) == {};
    forall a, b
      ensures (a, b) in E <==> Via(E, {}, a, b)
    {
      ViaNone(E, a, b);
    }
  }

  lemma BypassNext(E: set<(Address, Address)>, S: set<Address>, F: set<(Address, Address)>, v: Address,
                   G: set<(Address, Address)>)
    requires IsBypass(E, S, F)
    requires forall x, y :: (x, y) in G <==> (x, y) in F || ((x, v) in F && (v, y) in F)
    ensures IsBypass(E, S + {v}, G)
  {
    forall a, b
      ensures (a, b) in G <==> Via(E, S + {v}, a, b)
    {
      ViaStep(E, S, v, a, b);
    }
  }

  /** The last edge of a path through `S` leaves its start or a member of `S` that has a
      dependee. */
  lemma LastEdge(E: set<(Address, Address)>, S: set<Address>, a: Address, b: Address)
    requires Via(E, S, a, b)
    ensures exists u :: (u, b) in E && (u == a || (u in S && exists x :: (x, u) in E))
  {
    var p :| IsVia(E, S, p, a, b);
    var u := p[|p| - 2];
    assert (p[|p| - 2], p[|p| - 1]) in E;
    if |p| > 2 {
      assert (p[|p| - 3], p[|p| - 2]) in E;
    }
  }

  /** Bypassing injectable aliases changes for no target whether it is injectable. */
  lemma InjectableStable(known: set<Address>, E: set<(Address, Address)>, S: set<Address>,
                         F: set<(Address, Address)>, v: Address)
    requires IsBypass(E, S, F) && forall u :: u in S ==> Injectable(known, E, u)
    ensures Injectable(known, F, v) <==> Injectable(known, E, v)
  {
    if Injectable(known, E, v) {
      forall x, w | (x, v) in F && (v, w) in F
        ensures w in known
      {
        LastEdge(E, S, x, v);
        LastEdge(E, S, v, w);
        var u :| (u, w) in E && (u == v || (u in S && exists z :: (z, u) in E));
        assert exists z :: (z, u) in E;
      }
    }
    if Injectable(known, F, v) {
      forall x, w | (x, v) in E && (v, w) in E
        ensures w in known
      {
        ViaEdge(E, S, x, v);
        ViaEdge(E, S, v, w);
      }
    }
  }

  /** The loop of `execute`: afterwards `d` depends on `t` exactly when there was a dependency
      path from `d` to `t` whose inner targets are all processed aliases. Whether it fails can
      be told from the graph before the loop, whatever edges the loop adds on its way. */
  method Hotwire(graph: BuildGraph, aliases: seq<Address>) returns (ok: bool)
    requires graph.Valid()
    modifies graph, graph.callbacks
    ensures graph.Valid() && Invalidates(graph) && Extends(old(graph.Now()), graph.Now())
    ensures ok ==> IsBypass(old(graph.Now()).Edges(), Elems(aliases), graph.Now().Edges())
    ensures ok <==> forall v :: v in aliases ==> Injectable(graph.targets.Keys, old(graph.Now()).Edges(), v)
  {
    ghost var E := graph.Now().Edges();
    BypassNothing(E);
    for i := 0 to |aliases|
      invariant graph.Valid() && Invalidates(graph) && Extends(old(graph.Now()), graph.Now())
      invariant IsBypass(E, Elems(aliases[..i]), graph.Now().Edges())
      invariant forall v :: v in aliases[..i] ==> Injectable(graph.targets.Keys, E, v)
    {
      ghost var F, S, v := graph.Now().Edges(), Elems(aliases[..i]), aliases[i];
      assert aliases[..i + 1] == aliases[..i] + [v];
      assert Elems(aliases[..i + 1]) == S + {v};
      InjectableStable(graph.targets.Keys, E, S, F, v);
      ok := InjectIntoDependees(graph, aliases[i]);
      if !ok {
        return;
      }
      BypassNext(E, S, F, v, graph.Now().Edges());
    }
    assert aliases[..|aliases|] == aliases;
    return true;
  }

  /** Whatever order the aliases are processed in, the dependencies come out the same. */
  lemma OrderIrrelevant(E: set<(Address, Address)>, order: seq<Address>, order': seq<Address>,
                        F: set<(Address, Address)>, F': set<(Address, Address)>)
    requires (forall v :: v in order <==> v in order') && IsBypass(E, Elems(order), F) && IsBypass(E, Elems(order'), F')
    ensures F == F'
  {
    assert Elems(order) == Elems(order');
    SameEdges(F, F');
  }

  // ---- Expanding the target roots -------------------------------------------------------------

  predicate IsAlias(g: Graph, a: Address) {
    a in g.targets && g.targets[a].alias
  }

  ghost function AliasesOf(g: Graph): set<Address> {
    set a | a in g.targets && g.targets[a].alias
  }

  /** The dependencies of aliases, along which expansion recurses. */
  ghost function AliasEdges(g: Graph): set<(Address, Address)> {
    set e | e in g.Edges() && IsAlias(g, e.0)
  }

  /** `t` stands for `x`, which is no alias: `t` is `x`, or an alias that leads to `x` through
      aliases only. */
  ghost predicate StandsFor(g: Graph, t: Address, x: Address) {
    !IsAlias(g, x) && (t == x || (IsAlias(g, t) && Via(g.Edges(), AliasesOf(g), t, x)))
  }

  /** `_expand`; none if it meets an address that is not in the graph. */
  function Expand(g: Graph, t: Address): Option<seq<Address>>
    requires Ends(AliasEdges(g), t)
    decreases Rank(AliasEdges(g), t), 1, 0
  {
    if t !in g.targets then None
    else if g.targets[t].alias then ExpandDeps(g, t, At(g.dependencies, t))
    else Some([t])
  }

  function ExpandDeps(g: Graph, t: Address, deps: seq<Address>): Option<seq<Address>>
    requires Ends(AliasEdges(g), t) && IsAlias(g, t) && forall d :: d in deps ==> d in At(g.dependencies, t)
    decreases Rank(AliasEdges(g), t), 0, |deps|
  {
    if deps == [] then Some([])
    else
      EdgeMeans(g, t, deps[0]);
      EndsBelow(AliasEdges(g), t, deps[0]);
      var first := Expand(g, deps[0]);
      var rest := ExpandDeps(g, t, deps[1..]);
      if first.None? || rest.None? then None else Some(first.value + rest.value)
  }

  lemma StandsStep(g: Graph, t: Address, x: Address)
    requires IsAlias(g, t)
    ensures StandsFor(g, t, x) <==> exists d :: d in At(g.dependencies, t) && StandsFor(g, d, x)
  {
    var E, S := g.Edges(), AliasesOf(g);
    if StandsFor(g, t, x) {
      var p :| IsVia(E, S, p, t, x);
      var d := p[1];
      EdgeMeans(g, t, d);
      if d != x {
        assert IsVia(E, S, p[1..], d, x);
      }
      assert StandsFor(g, d, x);
    }
    if d :| d in At(g.dependencies, t) && StandsFor(g, d, x) {
      EdgeMeans(g, t, d);
      if d == x {
        ViaEdge(E, S, t, x);
      } else {
        ViaCons(E, S, t, d, x);
      }
    }
  }

  /** An expansion lists exactly the targets the root stands for, and fails exactly when one
      of them is not in the graph. */
  lemma {:induction false} ExpandExact(g: Graph, t: Address, x: Address)
    requires Ends(AliasEdges(g), t)
    ensures Expand(g, t).Some? ==> (x in Expand(g, t).value <==> StandsFor(g, t, x))
    ensures StandsFor(g, t, x) && x !in g.targets ==> Expand(g, t).None?
    decreases Rank(AliasEdges(g), t), 1, 0
  {
    if IsAlias(g, t) {
      ExpandDepsExact(g, t, At(g.dependencies, t), x);
      StandsStep(g, t, x);
    }
  }

  lemma {:induction false} ExpandDepsExact(g: Graph, t: Address, deps: seq<Address>, x: Address)
    requires Ends(AliasEdges(g), t) && IsAlias(g, t) && forall d :: d in deps ==> d in At(g.dependencies, t)
    ensures ExpandDeps(g, t, deps).Some? ==>
              (x in ExpandDeps(g, t, deps).value <==> exists d :: d in deps && StandsFor(g, d, x))
    ensures x !in g.targets && (exists d :: d in deps && StandsFor(g, d, x)) ==> ExpandDeps(g, t, deps).None?
    decreases Rank(AliasEdges(g), t), 0, |deps|
  {
    if deps != [] {
      EdgeMeans(g, t, deps[0]);
      EndsBelow(AliasEdges(g), t, deps[0]);
      ExpandExact(g, deps[0], x);
      ExpandDepsExact(g, t, deps[1..], x);
      assert deps == [deps[0]] + deps[1..];
    }
  }

  ghost predicate StandForUnknown(g: Graph, roots: seq<Address>) {
    exists t, x :: t in roots && StandsFor(g, t, x) && x !in g.targets
  }

  lemma {:induction false} ExpandFails(g: Graph, t: Address)
    requires Ends(AliasEdges(g), t) && Expand(g, t).None?
    ensures exists x :: StandsFor(g, t, x) && x !in g.targets
    decreases Rank(AliasEdges(g), t), 1, 0
  {
    if t !in g.targets {
      assert StandsFor(g, t, t);
    } else {
      ExpandDepsFails(g, t, At(g.dependencies, t));
      var d, x :| d in At(g.dependencies, t) && StandsFor(g, d, x) && x !in g.targets;
      StandsStep(g, t, x);
    }
  }

  lemma {:induction false} ExpandDepsFails(g: Graph, t: Address, deps: seq<Address>)
    requires Ends(AliasEdges(g), t) && IsAlias(g, t) && forall d :: d in deps ==> d in At(g.dependencies, t)
    requires ExpandDeps(g, t, deps).None?
    ensures StandForUnknown(g, deps)
    decreases Rank(AliasEdges(g), t), 0, |deps|
  {
    EdgeMeans(g, t, deps[0]);
    EndsBelow(AliasEdges(g), t, deps[0]);
    assert deps == [deps[0]] + deps[1..];
    if Expand(g, deps[0]).None? {
      ExpandFails(g, deps[0]);
    } else {
      ExpandDepsFails(g, t, deps[1..]);
    }
  }

  /** The expansions of `roots`, one after the other. */
  function ExpandAll(g: Graph, roots: seq<Address>): Option<seq<Address>>
    requires forall t :: t in roots ==> Ends(AliasEdges(g), t)
  {
    if roots == [] then Some([])
    else
      var front, last := ExpandAll(g, roots[..|roots| - 1]), Expand(g, roots[|roots| - 1]);
      if front.None? || last.None? then None else Some(front.value + last.value)
  }

  lemma {:induction false} ExpandAllCons(g: Graph, t: Address, roots: seq<Address>)
    requires Ends(AliasEdges(g), t) && forall d :: d in roots ==> Ends(AliasEdges(g), d)
    ensures ExpandAll(g, [t] + roots) ==
              var first, rest := Expand(g, t), ExpandAll(g, roots);
              if first.None? || rest.None? then None else Some(first.value + rest.value)
  {
    if roots == [] {
      assert [t] + roots == [t] && [t][..0] == [];
      assert Expand(g, t).Some? ==> [] + Expand(g, t).value == Expand(g, t).value + [];
    } else {
      var front, last := roots[..|roots| - 1], roots[|roots| - 1];
      ExpandAllCons(g, t, front);
      assert ([t] + roots)[..|roots|] == [t] + front && ([t] + roots)[|roots|] == last;
      if Expand(g, t).Some? && ExpandAll(g, roots).Some? {
        assert Expand(g, t).value + ExpandAll(g, roots).value ==
               Expand(g, t).value + ExpandAll(g, front).value + Expand(g, last).value;
      }
    }
  }

  lemma {:induction false} ExpandDepsOrder(g: Graph, t: Address, deps: seq<Address>)
    requires Ends(AliasEdges(g), t) && IsAlias(g, t) && forall d :: d in deps ==> d in At(g.dependencies, t)
    requires forall d :: d in deps ==> Ends(AliasEdges(g), d)
    ensures ExpandDeps(g, t, deps) == ExpandAll(g, deps)
  {
    if deps != [] {
      ExpandDepsOrder(g, t, deps[1..]);
      ExpandAllCons(g, deps[0], deps[1..]);
      assert deps == [deps[0]] + deps[1..];
    }
  }

  /** An alias expands to what its dependencies expand to, in their order. */
  lemma ExpandOrder(g: Graph, t: Address)
    requires Ends(AliasEdges(g), t) && IsAlias(g, t)
    ensures forall d :: d in At(g.dependencies, t) ==> Ends(AliasEdges(g), d)
    ensures Expand(g, t) == ExpandAll(g, At(g.dependencies, t))
  {
    forall d | d in At(g.dependencies, t)
      ensures Ends(AliasEdges(g), d)
    {
      EdgeMeans(g, t, d);
      EndsBelow(AliasEdges(g), t, d);
    }
    ExpandDepsOrder(g, t, At(g.dependencies, t));
  }

  lemma {:induction false} ExpandAllFails(g: Graph, roots: seq<Address>, i: nat)
    requires (forall t :: t in roots ==> Ends(AliasEdges(g), t)) && i < |roots| && Expand(g, roots[i]).None?
    ensures ExpandAll(g, roots).None?
  {
    if i < |roots| - 1 {
      ExpandAllFails(g, roots[..|roots| - 1], i);
    }
  }

  /** `_substitute_target_roots`: the new roots are the targets that the old ones stand for;
      none of them is an alias. */
  method SubstituteRoots(g: Graph, roots: seq<Address>) returns (r: Option<seq<Address>>)
    requires forall t :: t in roots ==> Ends(AliasEdges(g), t)
    ensures r == ExpandAll(g, roots) && (r.None? <==> StandForUnknown(g, roots))
    ensures r.Some? ==> forall x :: x in r.value <==> exists t :: t in roots && StandsFor(g, t, x)
    ensures r.Some? ==> forall x :: x in r.value ==> !IsAlias(g, x)
  {
    var out := [];
    for i := 0 to |roots|
      invariant forall x :: x in out <==> exists t :: t in roots[..i] && StandsFor(g, t, x)
      invariant forall x :: x in out ==> x in g.targets
      invariant ExpandAll(g, roots[..i]) == Some(out)
    {
      assert roots[..i + 1] == roots[..i] + [roots[i]];
      forall x
        ensures Expand(g, roots[i]).Some? ==> (x in Expand(g, roots[i]).value <==> StandsFor(g, roots[i], x))
        ensures StandsFor(g, roots[i], x) && x !in g.targets ==> Expand(g, roots[i]).None?
      {
        ExpandExact(g, roots[i], x);
      }
      var more := Expand(g, roots[i]);
      if more.None? {
        ExpandFails(g, roots[i]);
        ExpandAllFails(g, roots, i);
        return None;
      }
      out := out + more.value;
    }
    assert roots[..|roots|] == roots;
    return Some(out);
  }

  // ---- The whole task ---------------------------------------------------------------------------

  /** The settings of a query without keywords. */
  const PLAIN := SettingsOf(map[])

  ghost predicate PlainlyInPlay(g: Graph, roots: seq<Address>, x: Address) {
    InPlay(g, PLAIN, roots, x)
  }

  lemma ClosureBelow(g: Graph, roots: seq<Address>, d: Address, x: Address)
    requires g.Valid() && InTargets(g, PLAIN, roots, d) && Reach(g.Edges(), d, x)
    ensures InTargets(g, PLAIN, roots, x)
  {
    UnfilteredClosure(g, PLAIN, roots, d);
    UnfilteredClosure(g, PLAIN, roots, x);
    var r :| r in Elems(roots) && Reach(g.Edges(), r, d);
    ReachTrans(g.Edges(), r, d, x);
  }

  /** What is in play without filters holds all its dependencies. */
  lemma InPlayBelow(g: Graph, roots: seq<Address>, d: Address, x: Address)
    requires g.Valid() && PlainlyInPlay(g, roots, d) && Reach(g.Edges(), d, x)
    ensures PlainlyInPlay(g, roots, x)
  {
    if InTargets(g, PLAIN, roots, d) {
      ClosureBelow(g, roots, d, x);
    } else {
      var syn :| AreSynthetics(g, PLAIN, roots, syn) && InTargets(g, PLAIN, syn, d);
      ClosureBelow(g, syn, d, x);
    }
  }

  /** A query that finds all its targets can inject into all it lists. */
  lemma InPlayInjectable(g: Graph, roots: seq<Address>, v: Address)
    requires !Stuck(g, PLAIN, roots) && PlainlyInPlay(g, roots, v) && v in g.targets
    ensures Injectable(g.targets.Keys, g.Edges(), v)
  {
    if InTargets(g, PLAIN, roots, v) {
      DanglingIs(g, PLAIN, roots);
    } else {
      var syn :| AreSynthetics(g, PLAIN, roots, syn) && InTargets(g, PLAIN, syn, v);
      DanglingIs(g, PLAIN, syn);
    }
    forall w | (v, w) in g.Edges()
      ensures w in g.targets
    {
      EdgeMeans(g, v, w);
    }
  }

  /** The aliases on a path from something in play are in play. */
  lemma ViaInPlay(g: Graph, roots: seq<Address>, S: set<Address>, d: Address, x: Address)
    requires g.Valid() && PlainlyInPlay(g, roots, d)
    requires forall v :: v in S <==> PlainlyInPlay(g, roots, v) && IsAlias(g, v)
    ensures Via(g.Edges(), S, d, x) <==> Via(g.Edges(), AliasesOf(g), d, x)
  {
    var E := g.Edges();
    if Via(E, S, d, x) {
      ViaMono(E, S, AliasesOf(g), d, x);
    }
    if Via(E, AliasesOf(g), d, x) {
      var p :| IsVia(E, AliasesOf(g), p, d, x);
      forall i | 0 < i < |p| - 1
        ensures p[i] in S
      {
        assert Connects(E, p[..i + 1], d, p[i]);
        InPlayBelow(g, roots, d, p[i]);
      }
      assert IsVia(E, S, p, d, x);
    }
  }

  /** `F` is what the task makes of `g`: a target in play depends directly on everything it
      depended on through aliases only, and on nothing else. */
  ghost predicate Substituted(g: Graph, roots: seq<Address>, F: set<(Address, Address)>) {
    && g.Edges() <= F
    && (forall a, b :: Reach(F, a, b) <==> Reach(g.Edges(), a, b))
    && forall d, x :: PlainlyInPlay(g, roots, d) ==> ((d, x) in F <==> Via(g.Edges(), AliasesOf(g), d, x))
  }

  ghost function AliasesInPlay(g: Graph, roots: seq<Address>): set<Address> {
    set v | v in g.targets && g.targets[v].alias && PlainlyInPlay(g, roots, v)
  }

  lemma BypassGained(g: Graph, h: Graph, S: set<Address>, x: Address)
    requires h.Valid() && Extends(g, h) && IsBypass(g.Edges(), S, h.Edges())
    ensures Gained(g, h, x) <==> exists y :: Via(g.Edges(), S, x, y) && (x, y) !in g.Edges()
  {
    var deps, more := At(g.dependencies, x), At(h.dependencies, x);
    if Gained(g, h, x) {
      var y := more[|deps|];
      EdgeMeans(g, x, y);
      EdgeMeans(h, x, y);
      assert NoDup(more);
      assert Via(g.Edges(), S, x, y) && (x, y) !in g.Edges();
    }
    if y :| Via(g.Edges(), S, x, y) && (x, y) !in g.Edges() {
      EdgeMeans(g, x, y);
      EdgeMeans(h, x, y);
    }
  }

  /** The edges are injected into the graph, not through the targets, so no memo of a
      fingerprint is dirtied. Those that are exact stay so, for every hashing, exactly when no
      target with a transitive memo leads to one that got a new dependency from an alias, and
      none with a direct memo got one. */
  lemma BypassMemos(g: Graph, h: Graph, S: set<Address>, keys: Keys, directKeys: Keys)
    requires h.Valid() && Extends(g, h) && IsBypass(g.Edges(), S, h.Edges()) && AllComputable(g, keys, directKeys)
    ensures SafeFor(g, h, keys, directKeys) <==>
              && (forall a, s, x, y :: (a, s) in keys && Reach(g.Edges(), a, x) && Via(g.Edges(), S, x, y) ==>
                    (x, y) in g.Edges())
              && (forall a, s, y :: (a, s) in directKeys && Via(g.Edges(), S, a, y) ==> (a, y) in g.Edges())
  {
    ExtensionExactly(g, h, keys, directKeys);
    forall x
      ensures Gained(g, h, x) <==> exists y :: Via(g.Edges(), S, x, y) && (x, y) !in g.Edges()
    {
      BypassGained(g, h, S, x);
    }
  }

  /** The aliases in play. */
  method FindAliases(context: Context) returns (r: Option<seq<Address>>)
    requires context.Valid() && context.cache.entries == map[]
    modifies context`filled, context.cache
    ensures context.Valid()
    ensures r.None? <==> Stuck(context.graph.Now(), PLAIN, context.roots)
    ensures r.Some? ==> forall v :: v in r.value <==>
              PlainlyInPlay(context.graph.Now(), context.roots, v) && IsAlias(context.graph.Now(), v)
  {
    var targets := context.graph.targets;
    var keep := (a: Address) => a in targets && targets[a].alias;
    r := context.Targets(map[], keep);
    if r.Some? {
      context.AnswerMembers(PLAIN, keep, r);
    }
  }

  /** `execute`: the roots become what they stand for, and every target then in play depends
      directly on whatever it depended on through aliases. It fails exactly when a root stands
      for, or the targets in play need, something that is not in the graph; injecting cannot
      fail after that. Dependencies are only added. */
  method Execute(context: Context) returns (ok: bool)
    requires context.Valid() && forall t :: t in context.roots ==> Ends(AliasEdges(context.graph.Now()), t)
    modifies context`roots, context`filled, context.cache, context.graph, context.graph.callbacks
    ensures context.Valid() && Extends(old(context.graph.Now()), context.graph.Now())
    ensures ok <==> !StandForUnknown(old(context.graph.Now()), old(context.roots)) &&
                    !Stuck(old(context.graph.Now()), PLAIN, context.roots)
    ensures ok ==> forall x :: x in context.roots <==>
              exists t :: t in old(context.roots) && StandsFor(old(context.graph.Now()), t, x)
    ensures ok ==> var g, F := old(context.graph.Now()), context.graph.Now().Edges();
              IsBypass(g.Edges(), AliasesInPlay(g, context.roots), F) && Substituted(g, context.roots, F)
  {
    ghost var g := context.graph.Now();
    var roots := SubstituteRoots(context.graph.Now(), context.roots);
    if roots.None? {
      return false;
    }
    context.ReplaceTargets(roots.value);
    var aliases := FindAliases(context);
    if aliases.None? {
      return false;
    }
    forall v | v in aliases.value
      ensures Injectable(g.targets.Keys, g.Edges(), v)
    {
      InPlayInjectable(g, context.roots, v);
    }
    assert Elems(aliases.value) == AliasesInPlay(g, context.roots);
    ok := Hotwire(context.graph, aliases.value);
    BypassKeepsReach(g.Edges(), AliasesInPlay(g, context.roots), context.graph.Now().Edges());
    forall d, x | PlainlyInPlay(g, context.roots, d)
      ensures (d, x) in context.graph.Now().Edges() <==> Via(g.Edges(), AliasesOf(g), d, x)
    {
      ViaInPlay(g, context.roots, AliasesInPlay(g, context.roots), d, x);
    }
  }
}
