/** Target closures filtered by scope and transitivity (src/python/pants/build_graph/target.py
    and target_scopes.py). */
module Closures {
  import opened Wrappers
  import opened Graphs
  import opened Addresses
  import opened Walks
  import opened BreadthFirst
  import opened BuildGraphs

  /** `in_scope`; absent filters filter nothing. */
  predicate InScope(scope: Scope, excluded: Option<Scope>, included: Option<Scope>) {
    && (excluded.Some? ==> scope !! excluded.value)
    && (included.Some? ==> !(scope !! included.value))
  }

  datatype Settings = Settings(
    excluded: Option<Scope>,
    included: Option<Scope>,
    bfs: bool,
    postorder: bool,
    respectIntransitive: bool)
  {
    /** `_closure_dep_predicate`: an intransitive target is only followed from a root. */
    function Follow(roots: seq<Address>): (Target, Target) -> bool {
      (t: Target, d: Target) =>
        InScope(d.scope, excluded, included) && !(respectIntransitive && !d.transitive && t.address !in roots)
    }
  }

  function All(): Target -> bool {
    t => true
  }

  function ClosureView(g: Graph, s: Settings, roots: seq<Address>): View<Address> {
    DependencyView(g, All(), s.Follow(roots))
  }

  /** The closure of `roots`, by reachability alone. */
  ghost predicate InTargets(g: Graph, s: Settings, roots: seq<Address>, x: Address) {
    Reached(ClosureView(g, s, roots), roots, x)
  }

  /** The closure needs an unknown target. */
  ghost predicate Dangling(g: Graph, s: Settings, roots: seq<Address>) {
    Broken(ClosureView(g, s, roots), roots)
  }

  /** The order the traversal promises: by distance, children first, or in depth with parents
      first. */
  ghost predicate InOrder(g: Graph, s: Settings, roots: seq<Address>, out: seq<Address>) {
    var v := ClosureView(g, s, roots);
    if s.bfs then NonDecreasing(v, roots, out)
    else if s.postorder then ChildrenFirst(v, out)
    else Preorder(v, Elems(roots), out)
  }

  /** The closure of `roots`, each target once, in the order of the traversal. */
  ghost predicate IsClosureOf(g: Graph, s: Settings, roots: seq<Address>, out: seq<Address>) {
    NoDup(out) && (forall x :: x in out <==> InTargets(g, s, roots, x)) && InOrder(g, s, roots, out)
  }

  lemma ClosureEdge(g: Graph, s: Settings, roots: seq<Address>, a: Address, b: Address)
    ensures (a, b) in ClosureView(g, s, roots).Edges() <==>
              (a, b) in g.Edges() && (a in g.targets && b in g.targets ==> s.Follow(roots)(g.targets[a], g.targets[b]))
  {
    WalkEdge(g, All(), s.Follow(roots), a, b);
  }

  /** With intransitivity respected, an intransitive target that is not itself a root is in
      the closure exactly when a root depends on it directly and it is in scope. */
  lemma IntransitiveFromRoots(g: Graph, s: Settings, roots: seq<Address>, x: Address)
    requires g.Valid() && s.respectIntransitive && x in g.targets && !g.targets[x].transitive && x !in roots
    ensures InTargets(g, s, roots, x) <==>
              InScope(g.targets[x].scope, s.excluded, s.included) && exists r :: r in roots && (r, x) in g.Edges()
  {
    var E := ClosureView(g, s, roots).Edges();
    if InTargets(g, s, roots, x) {
      var r :| r in Elems(roots) && Reach(E, r, x);
      var c := ReachLast(E, r, x);
      ClosureEdge(g, s, roots, c, x);
      EdgeMeans(g, c, x);
      assert c in g.targets && g.targets[c].address == c;
    }
    if r :| r in roots && (r, x) in g.Edges() && InScope(g.targets[x].scope, s.excluded, s.included) {
      EdgeMeans(g, r, x);
      ClosureEdge(g, s, roots, r, x);
      ReachEdge(E, r, x);
      assert r in Elems(roots);
    }
  }

  /** Without filters, the closure is everything the roots depend on. */
  lemma UnfilteredClosure(g: Graph, s: Settings, roots: seq<Address>, x: Address)
    requires g.Valid() && s.excluded.None? && s.included.None? && !s.respectIntransitive
    ensures InTargets(g, s, roots, x) <==> ReachFrom(g.Edges(), Elems(roots), x)
  {
    forall a, b
      ensures (a, b) in ClosureView(g, s, roots).Edges() <==> (a, b) in g.Edges()
    {
      ClosureEdge(g, s, roots, a, b);
    }
    SameEdges(ClosureView(g, s, roots).Edges(), g.Edges());
  }

  /** `OrderedSet.update`: appends what is not there yet. */
  function Update(s: seq<Address>, more: seq<Address>): seq<Address>
    decreases |more|
  {
    if more == [] then s
    else Update(if more[0] in s then s else s + [more[0]], more[1..])
  }

  lemma {:induction false} UpdateNothing(s: seq<Address>, more: seq<Address>)
    requires forall x :: x in more ==> x in s
    ensures Update(s, more) == s
    decreases |more|
  {
    if more != [] {
      UpdateNothing(s, more[1..]);
    }
  }

  lemma KeepsAll(g: Graph, s: Settings, roots: seq<Address>)
    ensures forall x :: ClosureView(g, s, roots).keep(x)
  {
  }

  /** The roots always are in the closure, so the final update adds nothing. */
  lemma RootsIncluded(g: Graph, s: Settings, roots: seq<Address>)
    ensures forall r :: r in roots ==> InTargets(g, s, roots, r)
  {
    forall r | r in roots
      ensures InTargets(g, s, roots, r)
    {
      ReachRefl(ClosureView(g, s, roots).Edges(), r);
      assert r in Elems(roots);
    }
  }

  /** `closure_for_targets`: the same targets, each once, whatever the traversal; fails exactly
      when an unknown target is needed. */
  method ClosureForTargets(graph: BuildGraph, s: Settings, roots: seq<Address>) returns (r: Option<seq<Address>>)
    ensures r.None? <==> Dangling(graph.Now(), s, roots)
    ensures r.Some? ==> IsClosureOf(graph.Now(), s, roots, r.value)
  {
    if s.bfs {
      r := graph.WalkBreadthFirst(roots, All(), s.Follow(roots));
    } else {
      r := graph.WalkDependencies(roots, All(), s.Follow(roots), s.postorder);
    }
    if r.None? {
      return;
    }
    RootsIncluded(graph.Now(), s, roots);
    KeepsAll(graph.Now(), s, roots);
    assert forall x :: x in r.value <==> InTargets(graph.Now(), s, roots, x);
    UpdateNothing(r.value, roots);
    return Some(Update(r.value, roots));
  }

  lemma {:induction false} UpdateMembers(s: seq<Address>, more: seq<Address>)
    requires NoDup(s)
    ensures NoDup(Update(s, more)) && forall x :: x in Update(s, more) <==> x in s || x in more
    decreases |more|
  {
    if more != [] {
      UpdateMembers(if more[0] in s then s else s + [more[0]], more[1..]);
      assert more == [more[0]] + more[1..];
    }
  }

  /** What is there already stays in front. */
  lemma {:induction false} UpdatePrefix(s: seq<Address>, more: seq<Address>)
    ensures s <= Update(s, more)
    decreases |more|
  {
    if more != [] {
      UpdatePrefix(if more[0] in s then s else s + [more[0]], more[1..]);
    }
  }

  /** The entries of `more` that are not in `s`. */
  function Fresh(s: seq<Address>, more: seq<Address>): seq<Address> {
    if more == [] then [] else (if more[0] in s then [] else [more[0]]) + Fresh(s, more[1..])
  }

  lemma {:induction false} FreshSkips(s: seq<Address>, x: Address, more: seq<Address>)
    requires x !in more
    ensures Fresh(s + [x], more) == Fresh(s, more)
  {
    if more != [] {
      FreshSkips(s, x, more[1..]);
    }
  }

  /** What an update adds comes last, in its order. */
  lemma {:induction false} UpdateAppends(s: seq<Address>, more: seq<Address>)
    requires NoDup(more)
    ensures Update(s, more) == s + Fresh(s, more)
    decreases |more|
  {
    if more != [] {
      var x, rest := more[0], more[1..];
      if x in s {
        UpdateAppends(s, rest);
      } else {
        assert x !in rest;
        UpdateAppends(s + [x], rest);
        FreshSkips(s, x, rest);
      }
    }
  }
}
