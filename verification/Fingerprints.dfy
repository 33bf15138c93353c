/** Memoized transitive fingerprints and their invalidation
    (src/python/pants/build_graph/target.py). */
module Fingerprints {
  import opened Wrappers
  import opened Graphs
  import opened Addresses
  import opened BuildGraphs

  type Hash = string
  type Strategy = string

  /** What is left uninterpreted: a strategy's fingerprint of a target's own payload, whether
      it looks at direct dependencies only, and the digest of a target hash and the sorted
      hashes of dependencies. */
  datatype Hashing = Hashing(
    own: (Strategy, Target) -> Option<Hash>,
    direct: (Strategy, Target) -> bool,
    combine: (Option<Hash>, multiset<Hash>) -> Hash)

  const MAX_RECURSION_DEPTH := 250

  function Optional(h: Option<Hash>): multiset<Hash> {
    if h.None? then multiset{} else multiset{h.value}
  }

  function Combined(o: Hashing, own: Option<Hash>, deps: multiset<Hash>): Option<Hash> {
    if own.None? && deps == multiset{} then None else Some(o.combine(own, deps))
  }

  // ---- The plain recursive computation ----------------------------------------------------

  /** The fingerprint computed afresh, allowing `n` levels of recursion; the outer option is
      missing when that raises. */
  function Eval(g: Graph, o: Hashing, s: Strategy, a: Address, n: nat): Option<Option<Hash>>
    decreases n, 0
  {
    if n == 0 || a !in g.targets then None
    else
      var deps := EvalAll(g, o, s, At(g.dependencies, a), n - 1);
      if deps.None? then None else Some(Combined(o, o.own(s, g.targets[a]), deps.value))
  }

  function EvalAll(g: Graph, o: Hashing, s: Strategy, deps: seq<Address>, n: nat): Option<multiset<Hash>>
    decreases n, 1, |deps|
  {
    if deps == [] then Some(multiset{})
    else
      var rest := EvalAll(g, o, s, deps[..|deps| - 1], n);
      if rest.None? then None else
        var last := Eval(g, o, s, deps[|deps| - 1], n);
        if last.None? then None else Some(rest.value + Optional(last.value))
  }

  function OwnHashes(g: Graph, o: Hashing, s: Strategy, deps: seq<Address>): Option<multiset<Hash>> {
    if deps == [] then Some(multiset{})
    else
      var rest := OwnHashes(g, o, s, deps[..|deps| - 1]);
      if rest.None? || deps[|deps| - 1] !in g.targets then None
      else Some(rest.value + Optional(o.own(s, g.targets[deps[|deps| - 1]])))
  }

  /** The fingerprint under a strategy that looks at direct dependencies only. */
  function EvalDirect(g: Graph, o: Hashing, s: Strategy, a: Address): Option<Option<Hash>> {
    if a !in g.targets then None
    else
      var deps := OwnHashes(g, o, s, At(g.dependencies, a));
      if deps.None? then None else Some(Combined(o, o.own(s, g.targets[a]), deps.value))
  }

  /** More levels of recursion do not change a computed fingerprint. */
  lemma {:induction false} EvalMono(g: Graph, o: Hashing, s: Strategy, a: Address, n: nat, m: nat)
    requires n <= m && Eval(g, o, s, a, n).Some?
    ensures Eval(g, o, s, a, m) == Eval(g, o, s, a, n)
    decreases n, 0
  {
    EvalAllMono(g, o, s, At(g.dependencies, a), n - 1, m - 1);
  }

  lemma {:induction false} EvalAllMono(g: Graph, o: Hashing, s: Strategy, deps: seq<Address>, n: nat, m: nat)
    requires n <= m && EvalAll(g, o, s, deps, n).Some?
    ensures EvalAll(g, o, s, deps, m) == EvalAll(g, o, s, deps, n)
    decreases n, 1, |deps|
  {
    if deps != [] {
      EvalAllMono(g, o, s, deps[..|deps| - 1], n, m);
      EvalMono(g, o, s, deps[|deps| - 1], n, m);
    }
  }

  /** Some sufficiently deep recursion computes `v`. */
  ghost predicate Computes(g: Graph, o: Hashing, s: Strategy, a: Address, v: Option<Hash>) {
    exists n: nat :: Eval(g, o, s, a, n) == Some(v)
  }

  lemma ComputesUnique(g: Graph, o: Hashing, s: Strategy, a: Address, v: Option<Hash>, w: Option<Hash>)
    requires Computes(g, o, s, a, v) && Computes(g, o, s, a, w)
    ensures v == w
  {
    var n: nat :| Eval(g, o, s, a, n) == Some(v);
    var m: nat :| Eval(g, o, s, a, m) == Some(w);
    EvalMono(g, o, s, a, n, if n < m then m else n);
    EvalMono(g, o, s, a, m, if n < m then m else n);
  }

  // ---- When the plain computation raises ------------------------------------------------------

  /** There is a chain of `n` dependencies starting at `a`. */
  ghost predicate Chain(E: set<(Address, Address)>, a: Address, n: nat)
    decreases n
  {
    if n == 0 then true else exists b :: (a, b) in E && Chain(E, b, n - 1)
  }

  ghost predicate UnknownBelow(g: Graph, a: Address) {
    exists x :: Reach(g.Edges(), a, x) && x !in g.targets
  }

  /** The computation with `n` levels raises exactly when some chain of dependencies is too
      long for them or leads to an unknown target. */
  lemma {:induction false} EvalRaises(g: Graph, o: Hashing, s: Strategy, a: Address, n: nat)
    ensures Eval(g, o, s, a, n).None? <==> Chain(g.Edges(), a, n) || UnknownBelow(g, a)
    decreases n, 0
  {
    var E, deps := g.Edges(), At(g.dependencies, a);
    ReachRefl(E, a);
    if n > 0 && a in g.targets {
      EvalAllRaises(g, o, s, deps, n - 1);
      forall b
        ensures b in deps <==> (a, b) in E
      {
        EdgeMeans(g, a, b);
      }
      if UnknownBelow(g, a) {
        var x :| Reach(E, a, x) && x !in g.targets;
        var b := ReachFirst(E, a, x);
        assert UnknownBelow(g, b);
      }
      if b :| b in deps && UnknownBelow(g, b) {
        var x :| Reach(E, b, x) && x !in g.targets;
        ReachCons(E, a, b, x);
      }
    }
  }

  lemma {:induction false} EvalAllRaises(g: Graph, o: Hashing, s: Strategy, deps: seq<Address>, n: nat)
    ensures EvalAll(g, o, s, deps, n).None? <==> exists b :: b in deps && (Chain(g.Edges(), b, n) || UnknownBelow(g, b))
    decreases n, 1, |deps|
  {
    if deps != [] {
      var front, last := deps[..|deps| - 1], deps[|deps| - 1];
      assert deps == front + [last];
      EvalAllRaises(g, o, s, front, n);
      EvalRaises(g, o, s, last, n);
    }
  }

  // ---- What a computation depends on ---------------------------------------------------------

  /** The two graphs agree on `S`, which the first does not lead out of. */
  ghost predicate Agree(g: Graph, h: Graph, S: set<Address>) {
    forall x :: x in S && x in g.targets ==>
      && x in h.targets && h.targets[x] == g.targets[x] && At(h.dependencies, x) == At(g.dependencies, x)
      && forall y :: y in At(g.dependencies, x) ==> y in S
  }

  lemma {:induction false} EvalAgree(g: Graph, h: Graph, S: set<Address>, o: Hashing, s: Strategy, a: Address, n: nat)
    requires Agree(g, h, S) && a in S && Eval(g, o, s, a, n).Some?
    ensures Eval(h, o, s, a, n) == Eval(g, o, s, a, n)
    decreases n, 0
  {
    EvalAllAgree(g, h, S, o, s, At(g.dependencies, a), n - 1);
  }

  lemma {:induction false} EvalAllAgree(g: Graph, h: Graph, S: set<Address>, o: Hashing, s: Strategy,
                                        deps: seq<Address>, n: nat)
    requires Agree(g, h, S) && (forall y :: y in deps ==> y in S) && EvalAll(g, o, s, deps, n).Some?
    ensures EvalAll(h, o, s, deps, n) == EvalAll(g, o, s, deps, n)
    decreases n, 1, |deps|
  {
    if deps != [] {
      EvalAllAgree(g, h, S, o, s, deps[..|deps| - 1], n);
      EvalAgree(g, h, S, o, s, deps[|deps| - 1], n);
    }
  }

  lemma {:induction false} OwnAgree(g: Graph, h: Graph, o: Hashing, s: Strategy, deps: seq<Address>)
    requires (forall x :: x in g.targets ==> x in h.targets && h.targets[x] == g.targets[x])
    requires OwnHashes(g, o, s, deps).Some?
    ensures OwnHashes(h, o, s, deps) == OwnHashes(g, o, s, deps)
  {
    if deps != [] {
      OwnAgree(g, h, o, s, deps[..|deps| - 1]);
    }
  }

  // ---- Memos ------------------------------------------------------------------------------------

  type Memo = map<(Address, Strategy), Hash>

  /** Every memoized transitive fingerprint is what the plain recursion computes. */
  ghost predicate AllExact(g: Graph, o: Hashing, m: Memo) {
    forall a, s :: (a, s) in m ==> Computes(g, o, s, a, Some(m[(a, s)]))
  }

  ghost predicate DirectExact(g: Graph, o: Hashing, m: Memo) {
    forall a, s :: (a, s) in m ==> EvalDirect(g, o, s, a) == Some(Some(m[(a, s)]))
  }

  /** `mark_transitive_invalidation_hash_dirty` on all of `dirty`. */
  function Without(m: Memo, dirty: seq<Address>): Memo {
    map k | k in m && k.0 !in dirty :: m[k]
  }

  lemma ReachSetClosed(g: Graph, a: Address)
    ensures var S := ReachSet(g.Edges(), a);
            a in S && forall b, c :: b in S && c in At(g.dependencies, b) ==> c in S
  {
    var E := g.Edges();
    ReachRefl(E, a);
    forall b, c | b in ReachSet(E, a) && c in At(g.dependencies, b)
      ensures c in ReachSet(E, a)
    {
      EdgeMeans(g, b, c);
      ReachSetExact(E, a, b);
      ReachSnoc(E, a, b, c);
      ReachSetExact(E, a, c);
    }
  }

  type Keys = set<(Address, Strategy)>

  /** No target with a transitive memo leads to one that gained a dependency, and none with a
      direct memo gained one. */
  ghost predicate Untouched(g: Graph, h: Graph, keys: Keys, directKeys: Keys) {
    && (forall a, s, x :: (a, s) in keys && Reach(g.Edges(), a, x) ==> !Gained(g, h, x))
    && (forall a, s :: (a, s) in directKeys ==> !Gained(g, h, a))
  }

  lemma UntouchedKept(g: Graph, h: Graph, o: Hashing, all: Memo, direct: Memo)
    requires Extends(g, h) && Untouched(g, h, all.Keys, direct.Keys)
    requires AllExact(g, o, all) && DirectExact(g, o, direct)
    ensures AllExact(h, o, all) && DirectExact(h, o, direct)
  {
    forall a, s | (a, s) in all
      ensures Computes(h, o, s, a, Some(all[(a, s)]))
    {
      var S := ReachSet(g.Edges(), a);
      ReachSetClosed(g, a);
      forall x | x in S
        ensures !Gained(g, h, x)
      {
        ReachSetExact(g.Edges(), a, x);
      }
      assert Agree(g, h, S);
      var n: nat :| Eval(g, o, s, a, n) == Some(Some(all[(a, s)]));
      EvalAgree(g, h, S, o, s, a, n);
    }
    forall a, s | (a, s) in direct
      ensures EvalDirect(h, o, s, a) == Some(Some(direct[(a, s)]))
    {
      OwnAgree(g, h, o, s, At(g.dependencies, a));
    }
  }

  /** Injecting a dependency and dirtying everything that leads to the dependent leaves only
      exact fingerprints. */
  lemma InjectionKeepsExact(g: Graph, x: Address, y: Address, o: Hashing, all: Memo, direct: Memo, dirty: seq<Address>)
    requires g.Valid() && x in g.targets && AllExact(g, o, all) && DirectExact(g, o, direct)
    requires forall a :: a in dirty <==> Reach(g.WithDependency(x, y).Edges(), a, x)
    ensures AllExact(g.WithDependency(x, y), o, Without(all, dirty))
    ensures DirectExact(g.WithDependency(x, y), o, Without(direct, dirty))
  {
    var h := g.WithDependency(x, y);
    DependencyExtends(g, x, y);
    DependencyKeepsValid(g, x, y);
    ReachRefl(h.Edges(), x);
    forall a | a !in dirty
      ensures !Reach(g.Edges(), a, x)
    {
      if Reach(g.Edges(), a, x) {
        ReachMono(g.Edges(), h.Edges(), a, x);
      }
    }
    UntouchedKept(g, h, o, Without(all, dirty), Without(direct, dirty));
  }

  /** A new target changes no computed fingerprint: what could be computed before did not lead
      to its address. */
  lemma NewTargetKeepsExact(g: Graph, h: Graph, t: Address, o: Hashing, all: Memo, direct: Memo)
    requires t !in g.targets && AllExact(g, o, all) && DirectExact(g, o, direct)
    requires forall x :: x in g.targets ==>
               x in h.targets && h.targets[x] == g.targets[x] && At(h.dependencies, x) == At(g.dependencies, x)
    ensures AllExact(h, o, all) && DirectExact(h, o, direct)
  {
    forall a, s | (a, s) in all
      ensures Computes(h, o, s, a, Some(all[(a, s)]))
    {
      var n: nat :| Eval(g, o, s, a, n) == Some(Some(all[(a, s)]));
      var S := ReachSet(g.Edges(), a);
      ReachSetClosed(g, a);
      EvalAgree(g, h, S, o, s, a, n);
    }
    forall a, s | (a, s) in direct
      ensures EvalDirect(h, o, s, a) == Some(Some(direct[(a, s)]))
    {
      OwnAgree(g, h, o, s, At(g.dependencies, a));
    }
  }

  ghost predicate ComputesAll(g: Graph, o: Hashing, s: Strategy, deps: seq<Address>, hs: multiset<Hash>) {
    exists n: nat :: EvalAll(g, o, s, deps, n) == Some(hs)
  }

  lemma ComputesNone(g: Graph, o: Hashing, s: Strategy)
    ensures ComputesAll(g, o, s, [], multiset{})
  {
    assert EvalAll(g, o, s, [], 0) == Some(multiset{});
  }

  lemma ComputesNext(g: Graph, o: Hashing, s: Strategy, deps: seq<Address>, i: nat, hs: multiset<Hash>, v: Option<Hash>)
    requires i < |deps| && ComputesAll(g, o, s, deps[..i], hs) && Computes(g, o, s, deps[i], v)
    ensures ComputesAll(g, o, s, deps[..i + 1], hs + Optional(v))
  {
    var n: nat :| EvalAll(g, o, s, deps[..i], n) == Some(hs);
    var m: nat :| Eval(g, o, s, deps[i], m) == Some(v);
    var k := if n < m then m else n;
    EvalAllMono(g, o, s, deps[..i], n, k);
    EvalMono(g, o, s, deps[i], m, k);
    assert deps[..i + 1][..i] == deps[..i];
    assert EvalAll(g, o, s, deps[..i + 1], k) == Some(hs + Optional(v));
  }

  lemma ComputesTarget(g: Graph, o: Hashing, s: Strategy, a: Address, hs: multiset<Hash>)
    requires a in g.targets && ComputesAll(g, o, s, At(g.dependencies, a), hs)
    ensures Computes(g, o, s, a, Combined(o, o.own(s, g.targets[a]), hs))
  {
    var n: nat :| EvalAll(g, o, s, At(g.dependencies, a), n) == Some(hs);
    assert Eval(g, o, s, a, n + 1) == Some(Combined(o, o.own(s, g.targets[a]), hs));
  }

  lemma {:induction false} EvalAllPrefix(g: Graph, o: Hashing, s: Strategy, deps: seq<Address>, i: nat, n: nat)
    requires i <= |deps| && EvalAll(g, o, s, deps, n).Some?
    ensures EvalAll(g, o, s, deps[..i], n).Some?
    decreases |deps|
  {
    if i < |deps| {
      EvalAllPrefix(g, o, s, deps[..|deps| - 1], i, n);
      assert deps[..|deps| - 1][..i] == deps[..i];
    } else {
      assert deps[..i] == deps;
    }
  }

  /** A new target leaves the others and their dependencies alone. */
  lemma TargetFrame(g: Graph, t: Target, deps: seq<Address>, origin: Option<Address>, synthetic: bool)
    requires t.address !in g.targets
    ensures var h := g.WithTarget(t, origin, synthetic).WithDependencies(t.address, deps);
            forall x :: x in g.targets ==>
              x in h.targets && h.targets[x] == g.targets[x] && At(h.dependencies, x) == At(g.dependencies, x)
  {
    InjectionFrame(g.WithTarget(t, origin, synthetic), t.address, deps);
  }

  /** The levels of recursion left at `depth`. */
  function Levels(depth: nat): nat {
    if depth > MAX_RECURSION_DEPTH then 0 else MAX_RECURSION_DEPTH + 1 - depth
  }

  lemma {:induction false} OwnPrefix(g: Graph, o: Hashing, s: Strategy, deps: seq<Address>, i: nat)
    requires i <= |deps| && OwnHashes(g, o, s, deps[..i]).None?
    ensures OwnHashes(g, o, s, deps).None?
    decreases |deps|
  {
    if i < |deps| {
      assert deps[..|deps| - 1][..i] == deps[..i];
      OwnPrefix(g, o, s, deps[..|deps| - 1], i);
    } else {
      assert deps[..i] == deps;
    }
  }

  lemma MemoAgrees(g: Graph, o: Hashing, s: Strategy, a: Address, n: nat, v: Option<Hash>)
    requires Computes(g, o, s, a, v)
    ensures Eval(g, o, s, a, n).Some? ==> Eval(g, o, s, a, n) == Some(v)
  {
    if Eval(g, o, s, a, n).Some? {
      ComputesUnique(g, o, s, a, v, Eval(g, o, s, a, n).value);
    }
  }

  lemma RaisesAt(g: Graph, o: Hashing, s: Strategy, a: Address, i: nat, n: nat)
    requires i < |At(g.dependencies, a)| && n > 0 && Eval(g, o, s, At(g.dependencies, a)[i], n - 1).None?
    ensures Eval(g, o, s, a, n).None?
  {
    var deps := At(g.dependencies, a);
    if EvalAll(g, o, s, deps, n - 1).Some? {
      EvalAllPrefix(g, o, s, deps, i + 1, n - 1);
    }
  }

  /** The targets of a graph with their memos. */
  class Targets {
    const graph: BuildGraph
    const o: Hashing
    var all: Memo
    var direct: Memo

    ghost predicate Valid()
      reads this, graph
    {
      graph.Valid() && AllExact(graph.Now(), o, all) && DirectExact(graph.Now(), o, direct)
    }

    constructor (o: Hashing)
      ensures Valid() && fresh(graph) && graph.Now() == EMPTY && this.o == o
    {
      graph := new BuildGraph();
      this.o, all, direct := o, map[], map[];
    }

    /** Injecting a target, with its dependencies, into the graph. */
    method InjectTarget(t: Target, deps: seq<Address>, origin: Option<Address>, synthetic: bool) returns (ok: bool)
      requires Valid()
      modifies graph, graph.callbacks
      ensures Valid()
      ensures var g := old(graph.Now());
              graph.Now() == if ok then g.WithTarget(t, origin, synthetic).WithDependencies(t.address, deps) else g
    {
      ghost var g := graph.Now();
      ok := graph.InjectTarget(t, deps, origin, synthetic);
      if ok {
        TargetFrame(g, t, deps, origin, synthetic);
        NewTargetKeepsExact(g, graph.Now(), t.address, o, all, direct);
      }
    }

    /** `Target.inject_dependency`: adds the edge, then dirties the transitive dependees. */
    method InjectDependency(a: Address, b: Address) returns (ok: bool)
      requires Valid()
      modifies this`all, this`direct, graph, graph.callbacks
      ensures Valid()
      ensures ok == (a in old(graph.targets))
      ensures graph.Now() == if ok then old(graph.Now()).WithDependency(a, b) else old(graph.Now())
    {
      ghost var g := graph.Now();
      ok := graph.InjectDependency(a, b);
      if !ok {
        return;
      }
      var dirty := graph.WalkDependees([a], t => true, false);
      DependeeWalk(graph.Now(), [a], t => true);
      assert forall x :: x in dirty.value <==> Reach(graph.Now().Edges(), x, a);
      InjectionKeepsExact(g, a, b, o, all, direct, dirty.value);
      all, direct := Without(all, dirty.value), Without(direct, dirty.value);
    }

    /** What a computation at `depth` without memos would give. */
    ghost function Fresh(a: Address, s: Strategy, depth: nat): Option<Option<Hash>>
      reads this, graph
    {
      if depth == 0 && a in graph.targets && o.direct(s, graph.targets[a]) then EvalDirect(graph.Now(), o, s, a)
      else Eval(graph.Now(), o, s, a, Levels(depth))
    }

    method DirectHash(a: Address, s: Strategy) returns (r: Option<Option<Hash>>)
      requires Valid() && a in graph.targets
      modifies this`direct
      ensures Valid() && r == EvalDirect(graph.Now(), o, s, a)
    {
      if (a, s) in direct {
        return Some(Some(direct[(a, s)]));
      }
      var deps, hs := At(graph.dependencies, a), multiset{};
      for i := 0 to |deps|
        invariant OwnHashes(graph.Now(), o, s, deps[..i]) == Some(hs)
      {
        assert deps[..i + 1][..i] == deps[..i];
        if deps[i] !in graph.targets {
          OwnPrefix(graph.Now(), o, s, deps, i + 1);
          return None;
        }
        hs := hs + Optional(o.own(s, graph.targets[deps[i]]));
      }
      assert deps[..|deps|] == deps;
      var v := Combined(o, o.own(s, graph.targets[a]), hs);
      if v.Some? {
        direct := direct[(a, s) := v.value];
      }
      return Some(v);
    }

    /** `transitive_invalidation_hash`: where a computation without memos succeeds this gives
        the same; memos may only make it succeed beyond the depth limit. It terminates on
        every graph. */
    method TransitiveHash(a: Address, s: Strategy, depth: nat) returns (r: Option<Option<Hash>>)
      requires Valid()
      modifies this`all, this`direct
      ensures Valid()
      ensures Fresh(a, s, depth).Some? ==> r == Fresh(a, s, depth)
      ensures depth == 0 && a in graph.targets && o.direct(s, graph.targets[a]) ==> r == Fresh(a, s, depth)
      ensures r.Some? && !(depth == 0 && a in graph.targets && o.direct(s, graph.targets[a])) ==>
                Computes(graph.Now(), o, s, a, r.value)
      decreases Levels(depth), 2
    {
      if depth > MAX_RECURSION_DEPTH || a !in graph.targets {
        return None;
      }
      if depth == 0 && o.direct(s, graph.targets[a]) {
        r := DirectHash(a, s);
      } else {
        r := RecursiveHash(a, s, depth);
      }
    }

    method RecursiveHash(a: Address, s: Strategy, depth: nat) returns (r: Option<Option<Hash>>)
      requires Valid() && depth <= MAX_RECURSION_DEPTH && a in graph.targets
      modifies this`all, this`direct
      ensures Valid()
      ensures Eval(graph.Now(), o, s, a, Levels(depth)).Some? ==> r == Eval(graph.Now(), o, s, a, Levels(depth))
      ensures r.Some? ==> Computes(graph.Now(), o, s, a, r.value)
      decreases Levels(depth), 1
    {
      ghost var g, n := graph.Now(), Levels(depth);
      if (a, s) in all {
        MemoAgrees(g, o, s, a, n, Some(all[(a, s)]));
        return Some(Some(all[(a, s)]));
      }
      var hs := DependencyHashes(a, s, depth);
      if hs.None? {
        return None;
      }
      var v := Combined(o, o.own(s, graph.targets[a]), hs.value);
      ComputesTarget(g, o, s, a, hs.value);
      MemoAgrees(g, o, s, a, n, v);
      if v.Some? {
        all := all[(a, s) := v.value];
      }
      return Some(v);
    }

    /** The hashes of the dependencies, one level deeper. */
    method DependencyHashes(a: Address, s: Strategy, depth: nat) returns (r: Option<multiset<Hash>>)
      requires Valid() && depth <= MAX_RECURSION_DEPTH
      modifies this`all, this`direct
      ensures Valid()
      ensures r.Some? ==> ComputesAll(graph.Now(), o, s, At(graph.dependencies, a), r.value)
      ensures r.None? ==> Eval(graph.Now(), o, s, a, Levels(depth)).None?
      decreases Levels(depth), 0
    {
      ghost var g, n := graph.Now(), Levels(depth);
      var deps, hs := At(graph.dependencies, a), multiset{};
      ComputesNone(g, o, s);
      for i := 0 to |deps|
        invariant Valid() && ComputesAll(g, o, s, deps[..i], hs)
      {
        var d := TransitiveHash(deps[i], s, depth + 1);
        if d.None? {
          RaisesAt(g, o, s, a, i, n);
          return None;
        }
        ComputesNext(g, o, s, deps, i, hs, d.value);
        hs := hs + Optional(d.value);
      }
      assert deps[..|deps|] == deps;
      return Some(hs);
    }
  }

  /** Where every dependency is known and no chain is longer than the limit, a computation
      succeeds; so then a memo, whenever it was made, is what a fresh computation gives. */
  lemma MemosAreFresh(g: Graph, o: Hashing, all: Memo, a: Address, s: Strategy)
    requires AllExact(g, o, all)
    requires !UnknownBelow(g, a) && !Chain(g.Edges(), a, 251)
    ensures Eval(g, o, s, a, Levels(0)).Some?
    ensures (a, s) in all ==> Eval(g, o, s, a, Levels(0)) == Some(Some(all[(a, s)]))
  {
    EvalRaises(g, o, s, a, Levels(0));
    if (a, s) in all {
      MemoAgrees(g, o, s, a, Levels(0), Some(all[(a, s)]));
    }
  }

  /** Chains that reach a cycle go on forever. */
  lemma {:induction false} ChainToCycle(E: set<(Address, Address)>, a: Address, c: seq<Address>, n: nat)
    requires IsCycle(E, c) && Reach(E, a, c[0])
    ensures Chain(E, a, n)
    decreases n
  {
    if n > 0 {
      var b;
      if a == c[0] {
        b := c[1];
        assert (a, b) in E;
        assert Connects(E, c[1..], b, c[0]);
      } else {
        b := ReachFirst(E, a, c[0]);
      }
      ChainToCycle(E, b, c, n - 1);
    }
  }

  /** Nothing that leads to a cycle is ever memoized. */
  lemma NoMemoOnCycle(g: Graph, o: Hashing, all: Memo, a: Address, s: Strategy, c: seq<Address>)
    requires AllExact(g, o, all) && (a, s) in all && IsCycle(g.Edges(), c)
    ensures !Reach(g.Edges(), a, c[0])
  {
    if Reach(g.Edges(), a, c[0]) {
      var n: nat :| Eval(g, o, s, a, n) == Some(Some(all[(a, s)]));
      ChainToCycle(g.Edges(), a, c, n);
      EvalRaises(g, o, s, a, n);
    }
  }

  // ---- Edges injected behind the targets' backs ---------------------------------------------

  /** The size of all the hashes together. */
  ghost function Total(ms: multiset<Hash>): nat {
    if ms == multiset{} then 0 else var h :| h in ms; |h| + Total(ms - multiset{h})
  }

  lemma TakeOther(ms: multiset<Hash>, h: Hash, k: Hash)
    requires k != h
    ensures ms + multiset{h} - multiset{k} == ms - multiset{k} + multiset{h}
  {
  }

  lemma TakeBack(ms: multiset<Hash>, k: Hash)
    requires k in ms
    ensures ms - multiset{k} + multiset{k} == ms && |ms - multiset{k}| < |ms|
  {
  }

  lemma {:induction false} TotalAdd(ms: multiset<Hash>, h: Hash)
    ensures Total(ms + multiset{h}) == Total(ms) + |h|
    decreases |ms|
  {
    var all := ms + multiset{h};
    var k :| k in all && Total(all) == |k| + Total(all - multiset{k});
    if k == h {
      assert all - multiset{k} == ms;
    } else {
      TakeOther(ms, h, k);
      TakeBack(ms, k);
      TotalAdd(ms - multiset{k}, h);
      TotalAdd(ms - multiset{k}, k);
    }
  }

  ghost function Letters(n: nat): Hash {
    seq(n, i => 'x')
  }

  /** A hashing in which a fingerprint is as long as the dependency paths it covers are many. */
  ghost function Counting(): Hashing {
    Hashing((s, t) => Some(""), (s, t) => false, (h, ms) => Letters(1 + Total(ms)))
  }

  /** The dependency paths from `a` to targets of a kind, down to `n` levels. */
  ghost function Paths(g: Graph, kind: Target -> bool, a: Address, n: nat): nat
    decreases n, 0
  {
    if n == 0 || a !in g.targets then 0
    else (if kind(g.targets[a]) then 1 else 0) + PathsAll(g, kind, At(g.dependencies, a), n - 1)
  }

  ghost function PathsAll(g: Graph, kind: Target -> bool, deps: seq<Address>, n: nat): nat
    decreases n, 1, |deps|
  {
    if deps == [] then 0
    else PathsAll(g, kind, deps[..|deps| - 1], n) + Paths(g, kind, deps[|deps| - 1], n)
  }

  ghost function Every(): Target -> bool {
    t => true
  }

  lemma EveryPath(g: Graph, a: Address, n: nat)
    requires n > 0 && a in g.targets
    ensures Paths(g, Every(), a, n) == 1 + PathsAll(g, Every(), At(g.dependencies, a), n - 1)
  {
  }

  lemma {:induction false} LengthIsPaths(g: Graph, s: Strategy, a: Address, n: nat)
    requires Eval(g, Counting(), s, a, n).Some?
    ensures var v := Eval(g, Counting(), s, a, n).value; v.Some? && |v.value| == Paths(g, Every(), a, n)
    decreases n, 0
  {
    TotalIsPaths(g, s, At(g.dependencies, a), n - 1);
    EveryPath(g, a, n);
  }

  lemma {:induction false} TotalIsPaths(g: Graph, s: Strategy, deps: seq<Address>, n: nat)
    requires EvalAll(g, Counting(), s, deps, n).Some?
    ensures Total(EvalAll(g, Counting(), s, deps, n).value) == PathsAll(g, Every(), deps, n)
    decreases n, 1, |deps|
  {
    if deps != [] {
      var front, last := deps[..|deps| - 1], deps[|deps| - 1];
      TotalIsPaths(g, s, front, n);
      LengthIsPaths(g, s, last, n);
      TotalAdd(EvalAll(g, Counting(), s, front, n).value, Eval(g, Counting(), s, last, n).value.value);
    }
  }

  /** More dependencies make more paths. */
  lemma {:induction false} PathsPrefix(g: Graph, o: Hashing, s: Strategy, deps: seq<Address>, i: nat, n: nat)
    requires i <= |deps| && EvalAll(g, o, s, deps, n).Some?
    ensures PathsAll(g, Every(), deps[..i], n) + |deps| - i <= PathsAll(g, Every(), deps, n)
  {
    if i < |deps| {
      var front := deps[..|deps| - 1];
      assert front[..i] == deps[..i];
      PathsPrefix(g, o, s, front, i, n);
    } else {
      assert deps[..i] == deps;
    }
  }

  /** New dependencies add paths, and do so for all that lead to where they were added. */
  lemma {:induction false} PathsGrow(g: Graph, h: Graph, x: Address, a: Address, n: nat, o: Hashing, s: Strategy)
    requires Extends(g, h) && Gained(g, h, x) && Eval(h, o, s, a, n).Some?
    ensures Paths(g, Every(), a, n) <= Paths(h, Every(), a, n)
    ensures Reach(g.Edges(), a, x) ==> Paths(g, Every(), a, n) < Paths(h, Every(), a, n)
    decreases n, 0
  {
    var deps, more := At(g.dependencies, a), At(h.dependencies, a);
    assert more[..|deps|] == deps;
    EvalAllPrefix(h, o, s, more, |deps|, n - 1);
    PathsPrefix(h, o, s, more, |deps|, n - 1);
    if a != x && Reach(g.Edges(), a, x) {
      var b := ReachFirst(g.Edges(), a, x);
      EdgeMeans(g, a, b);
    }
    PathsAllGrow(g, h, x, deps, n - 1, o, s);
  }

  lemma {:induction false} PathsAllGrow(g: Graph, h: Graph, x: Address, deps: seq<Address>, n: nat,
                                        o: Hashing, s: Strategy)
    requires Extends(g, h) && Gained(g, h, x) && EvalAll(h, o, s, deps, n).Some?
    ensures PathsAll(g, Every(), deps, n) <= PathsAll(h, Every(), deps, n)
    ensures (exists b :: b in deps && Reach(g.Edges(), b, x)) ==>
              PathsAll(g, Every(), deps, n) < PathsAll(h, Every(), deps, n)
    decreases n, 1, |deps|
  {
    if deps != [] {
      var front, last := deps[..|deps| - 1], deps[|deps| - 1];
      assert deps == front + [last];
      PathsAllGrow(g, h, x, front, n, o, s);
      PathsGrow(g, h, x, last, n, o, s);
    }
  }

  /** A fingerprint of `a` can be computed at all. */
  ghost predicate Computable(g: Graph, a: Address) {
    !UnknownBelow(g, a) && exists n: nat :: !Chain(g.Edges(), a, n)
  }

  /** A fingerprint of `a` from its direct dependencies can be computed. */
  ghost predicate DirectlyComputable(g: Graph, a: Address) {
    a in g.targets && forall b :: b in At(g.dependencies, a) ==> b in g.targets
  }

  /** With every hashing, memos for these keys that are exact in `g` are exact in `h`. */
  ghost predicate SafeFor(g: Graph, h: Graph, keys: Keys, directKeys: Keys) {
    forall o: Hashing, all: Memo, direct: Memo ::
      all.Keys == keys && direct.Keys == directKeys && AllExact(g, o, all) && DirectExact(g, o, direct) ==>
        AllExact(h, o, all) && DirectExact(h, o, direct)
  }

  /** Every target has a fingerprint of its own, so every computed fingerprint is memoized. */
  ghost predicate AlwaysOwn(o: Hashing) {
    forall s, t :: o.own(s, t).Some?
  }

  lemma SomeMemo(g: Graph, o: Hashing, keys: Keys)
    requires AlwaysOwn(o) && forall a, s :: (a, s) in keys ==> Computable(g, a)
    ensures exists all: Memo :: all.Keys == keys && AllExact(g, o, all)
    decreases |keys|
  {
    if keys == {} {
      var none: Memo := map[];
      assert none.Keys == keys && AllExact(g, o, none);
    } else {
      var k :| k in keys;
      SomeMemo(g, o, keys - {k});
      var rest: Memo :| rest.Keys == keys - {k} && AllExact(g, o, rest);
      assert k == (k.0, k.1);
      var n: nat :| !Chain(g.Edges(), k.0, n);
      EvalRaises(g, o, k.1, k.0, n);
      var v := Eval(g, o, k.1, k.0, n).value;
      assert Computes(g, o, k.1, k.0, v);
      var all := rest[k := v.value];
      assert all.Keys == keys && AllExact(g, o, all);
    }
  }

  lemma {:induction false} OwnHashesKnown(g: Graph, o: Hashing, s: Strategy, deps: seq<Address>)
    ensures OwnHashes(g, o, s, deps).Some? <==> forall b :: b in deps ==> b in g.targets
  {
    if deps != [] {
      OwnHashesKnown(g, o, s, deps[..|deps| - 1]);
    }
  }

  lemma {:induction false} OwnHashesCount(g: Graph, o: Hashing, s: Strategy, deps: seq<Address>)
    ensures AlwaysOwn(o) && OwnHashes(g, o, s, deps).Some? ==> |OwnHashes(g, o, s, deps).value| == |deps|
  {
    if deps != [] {
      OwnHashesCount(g, o, s, deps[..|deps| - 1]);
    }
  }

  lemma SomeDirectMemo(g: Graph, o: Hashing, keys: Keys)
    requires AlwaysOwn(o) && forall a, s :: (a, s) in keys ==> DirectlyComputable(g, a)
    ensures exists direct: Memo :: direct.Keys == keys && DirectExact(g, o, direct)
    decreases |keys|
  {
    if keys == {} {
      var none: Memo := map[];
      assert none.Keys == keys && DirectExact(g, o, none);
    } else {
      var k :| k in keys;
      SomeDirectMemo(g, o, keys - {k});
      var rest: Memo :| rest.Keys == keys - {k} && DirectExact(g, o, rest);
      assert k == (k.0, k.1);
      OwnHashesKnown(g, o, k.1, At(g.dependencies, k.0));
      var direct := rest[k := EvalDirect(g, o, k.1, k.0).value.value];
      assert direct.Keys == keys && DirectExact(g, o, direct);
    }
  }

  lemma StaleCount(g: Graph, h: Graph, x: Address, a: Address, s: Strategy, v: Hash)
    requires Extends(g, h) && Gained(g, h, x) && Reach(g.Edges(), a, x) && Computes(g, Counting(), s, a, Some(v))
    ensures !Computes(h, Counting(), s, a, Some(v))
  {
    var o := Counting();
    if Computes(h, o, s, a, Some(v)) {
      var n: nat :| Eval(g, o, s, a, n) == Some(Some(v));
      var m: nat :| Eval(h, o, s, a, m) == Some(Some(v));
      var k := if n < m then m else n;
      EvalMono(g, o, s, a, n, k);
      EvalMono(h, o, s, a, m, k);
      LengthIsPaths(g, s, a, k);
      LengthIsPaths(h, s, a, k);
      PathsGrow(g, h, x, a, k, o, s);
    }
  }

  /** Fingerprints for all the keys can be computed. */
  ghost predicate AllComputable(g: Graph, keys: Keys, directKeys: Keys) {
    && (forall a, s :: (a, s) in keys ==> Computable(g, a))
    && (forall a, s :: (a, s) in directKeys ==> DirectlyComputable(g, a))
  }

  lemma TransitiveStale(g: Graph, h: Graph, x: Address, keys: Keys, directKeys: Keys, a: Address, s: Strategy)
    requires Extends(g, h) && AllComputable(g, keys, directKeys)
    requires (a, s) in keys && Reach(g.Edges(), a, x) && Gained(g, h, x)
    ensures !SafeFor(g, h, keys, directKeys)
  {
    SomeMemo(g, Counting(), keys);
    SomeDirectMemo(g, Counting(), directKeys);
    var all: Memo :| all.Keys == keys && AllExact(g, Counting(), all);
    var direct: Memo :| direct.Keys == directKeys && DirectExact(g, Counting(), direct);
    StaleCount(g, h, x, a, s, all[(a, s)]);
  }

  /** A hashing in which a fingerprint is as long as the hashes it digests are many. */
  ghost function Numbering(): Hashing {
    Hashing((s, t) => Some(""), (s, t) => true, (h, ms) => Letters(|ms|))
  }

  lemma StaleNumber(g: Graph, h: Graph, x: Address, s: Strategy, v: Hash)
    requires Extends(g, h) && Gained(g, h, x) && DirectlyComputable(g, x)
    requires EvalDirect(g, Numbering(), s, x) == Some(Some(v))
    ensures EvalDirect(h, Numbering(), s, x) != Some(Some(v))
  {
    var deps, more := At(g.dependencies, x), At(h.dependencies, x);
    OwnHashesKnown(g, Numbering(), s, deps);
    OwnHashesCount(g, Numbering(), s, deps);
    assert |v| == |deps| < |more|;
    if EvalDirect(h, Numbering(), s, x).Some? {
      OwnHashesCount(h, Numbering(), s, more);
    }
  }

  lemma DirectStale(g: Graph, h: Graph, x: Address, keys: Keys, directKeys: Keys, s: Strategy)
    requires Extends(g, h) && AllComputable(g, keys, directKeys) && (x, s) in directKeys && Gained(g, h, x)
    ensures !SafeFor(g, h, keys, directKeys)
  {
    SomeMemo(g, Numbering(), keys);
    SomeDirectMemo(g, Numbering(), directKeys);
    var all: Memo :| all.Keys == keys && AllExact(g, Numbering(), all);
    var direct: Memo :| direct.Keys == directKeys && DirectExact(g, Numbering(), direct);
    StaleNumber(g, h, x, s, direct[(x, s)]);
  }

  /** Dependencies that are injected without dirtying memos leave these exact, for every
      hashing, exactly when they touch none of them. */
  lemma ExtensionExactly(g: Graph, h: Graph, keys: Keys, directKeys: Keys)
    requires Extends(g, h) && AllComputable(g, keys, directKeys)
    ensures SafeFor(g, h, keys, directKeys) <==> Untouched(g, h, keys, directKeys)
  {
    if Untouched(g, h, keys, directKeys) {
      forall o: Hashing, all: Memo, direct: Memo |
        all.Keys == keys && direct.Keys == directKeys && AllExact(g, o, all) && DirectExact(g, o, direct)
        ensures AllExact(h, o, all) && DirectExact(h, o, direct)
      {
        UntouchedKept(g, h, o, all, direct);
      }
    } else if a, s, x :| (a, s) in keys && Reach(g.Edges(), a, x) && Gained(g, h, x) {
      TransitiveStale(g, h, x, keys, directKeys, a, s);
    } else {
      var a, s :| (a, s) in directKeys && Gained(g, h, a);
      DirectStale(g, h, a, keys, directKeys, s);
    }
  }

  /** `BuildGraph.inject_dependency` called directly does not dirty memos. That is safe, for
      every hashing, exactly when the dependency was there, or no target with a transitive memo
      leads to the dependent and the dependent itself has no direct memo. */
  lemma DirectInjectionExactly(g: Graph, x: Address, y: Address, keys: Keys, directKeys: Keys)
    requires x in g.targets && AllComputable(g, keys, directKeys)
    ensures SafeFor(g, g.WithDependency(x, y), keys, directKeys) <==>
              || y in At(g.dependencies, x)
              || ((forall a, s :: (a, s) in keys ==> !Reach(g.Edges(), a, x)) &&
                  (forall a, s :: (a, s) in directKeys ==> a != x))
  {
    DependencyExtends(g, x, y);
    ExtensionExactly(g, g.WithDependency(x, y), keys, directKeys);
  }
}
