/** The mutable graph of targets: dependencies and their inverse, and the forest of
    derivations (src/python/pants/build_graph/build_graph.py). */
module BuildGraphs {
  import opened Wrappers
  import opened Graphs
  import opened Addresses
  import opened Walks
  import opened BreadthFirst

  type ScopeName = n: string | n != "" witness "default"

  /** A parsed scope has at least one name, if only the default one. */
  type Scope = names: set<ScopeName> | names != {} witness {"default"}

  /** A target is known by its address; scope names and transitivity filter closures. */
  datatype Target = Target(address: Address, scope: Scope, transitive: bool, alias: bool)

  /** `v` added to the list at `k`. */
  function Add<K, V>(m: map<K, seq<V>>, k: K, v: V): map<K, seq<V>> {
    m[k := At(m, k) + [v]]
  }

  ghost predicate NoDups<K(!new), V>(m: map<K, seq<V>>) {
    forall k :: NoDup(At(m, k))
  }

  lemma AddAt<K, V>(m: map<K, seq<V>>, k: K, v: V, x: K)
    ensures At(Add(m, k, v), x) == if x == k then At(m, k) + [v] else At(m, x)
  {
  }

  lemma AddMembers<K(!new), V(!new)>(m: map<K, seq<V>>, k: K, v: V)
    ensures forall x, y :: y in At(Add(m, k, v), x) <==> y in At(m, x) || (x == k && y == v)
  {
    forall x, y
      ensures y in At(Add(m, k, v), x) <==> y in At(m, x) || (x == k && y == v)
    {
      AddAt(m, k, v, x);
    }
  }

  lemma AddNoDups<K(!new), V(!new)>(m: map<K, seq<V>>, k: K, v: V)
    requires NoDups(m) && v !in At(m, k)
    ensures NoDups(Add(m, k, v))
  {
    forall x
      ensures NoDup(At(Add(m, k, v), x))
    {
      AddAt(m, k, v, x);
      assert NoDup(At(m, x));
    }
  }

  /** The contents of a build graph; missing entries of the defaulting dictionaries count as
      empty. */
  datatype Graph = Graph(
    targets: map<Address, Target>,
    dependencies: map<Address, seq<Address>>,
    dependees: map<Address, seq<Address>>,
    derivedFrom: map<Address, Address>,
    derivatives: map<Address, seq<Address>>,
    synthetic: set<Address>)
  {
    ghost function Edges(): set<(Address, Address)> {
      set a, b | a in dependencies && b in dependencies[a] :: (a, b)
    }

    ghost function Derivations(): set<(Address, Address)> {
      set a | a in derivedFrom :: (a, derivedFrom[a])
    }

    ghost predicate DependeesInvert() {
      && NoDups(dependencies) && NoDups(dependees)
      && (forall a, b :: b in At(dependencies, a) <==> a in At(dependees, b))
      && (forall a, b :: b in At(dependencies, a) ==> a in targets)
    }

    ghost predicate DerivationsForest() {
      && (forall a :: a in derivedFrom ==> a in targets && derivedFrom[a] in targets && a in synthetic)
      && NoDups(derivatives)
      && (forall a, b :: a in At(derivatives, b) <==> a in derivedFrom && derivedFrom[a] == b)
      && Acyclic(Derivations())
    }

    ghost predicate Valid() {
      && (forall a :: a in targets ==> targets[a].address == a)
      && synthetic <= targets.Keys
      && DependeesInvert() && DerivationsForest()
    }

    function WithDependency(a: Address, b: Address): Graph {
      if b in At(dependencies, a) then this
      else this.(dependencies := Add(dependencies, a, b), dependees := Add(dependees, b, a))
    }

    function WithDependencies(a: Address, bs: seq<Address>): Graph {
      if bs == [] then this else WithDependencies(a, bs[..|bs| - 1]).WithDependency(a, bs[|bs| - 1])
    }

    /** A new target, before its dependencies are injected. */
    function WithTarget(t: Target, origin: Option<Address>, isSynthetic: bool): Graph {
      var g := this.(targets := targets[t.address := t],
                     synthetic := if origin.Some? || isSynthetic then synthetic + {t.address} else synthetic);
      if origin.None? then g
      else g.(derivedFrom := derivedFrom[t.address := origin.value],
              derivatives := Add(derivatives, origin.value, t.address))
    }
  }

  // What the walks see of a graph. Filters are only asked about known targets.

  function Keep(targets: map<Address, Target>, keep: Target -> bool): Address -> bool {
    a => a in targets ==> keep(targets[a])
  }

  function Follow(targets: map<Address, Target>, follow: (Target, Target) -> bool): (Address, Address) -> bool {
    (a, b) => a in targets && b in targets ==> follow(targets[a], targets[b])
  }

  function DependencyView(g: Graph, keep: Target -> bool, follow: (Target, Target) -> bool): View<Address> {
    View(g.targets.Keys, g.dependencies, Keep(g.targets, keep), Follow(g.targets, follow))
  }

  function DependeeView(g: Graph, keep: Target -> bool): View<Address> {
    View(g.targets.Keys, g.dependees, Keep(g.targets, keep), (a, b) => true)
  }

  const EMPTY := Graph(map[], map[], map[], map[], map[], {})

  lemma EmptyValid()
    ensures EMPTY.Valid() && EMPTY.Edges() == {}
  {
  }

  lemma EdgeMeans(g: Graph, a: Address, b: Address)
    ensures (a, b) in g.Edges() <==> b in At(g.dependencies, a)
  {
  }

  /** `h` has the targets of `g`, and before any new dependencies those of `g`, in their order. */
  ghost predicate Extends(g: Graph, h: Graph) {
    h.targets == g.targets && forall x :: At(g.dependencies, x) <= At(h.dependencies, x)
  }

  ghost predicate Gained(g: Graph, h: Graph, x: Address) {
    At(h.dependencies, x) != At(g.dependencies, x)
  }

  lemma DependencyExtends(g: Graph, a: Address, b: Address)
    ensures Extends(g, g.WithDependency(a, b))
    ensures forall x :: Gained(g, g.WithDependency(a, b), x) <==> x == a && b !in At(g.dependencies, a)
  {
    forall x
      ensures At(g.dependencies, x) <= At(g.WithDependency(a, b).dependencies, x)
      ensures Gained(g, g.WithDependency(a, b), x) <==> x == a && b !in At(g.dependencies, a)
    {
      AddAt(g.dependencies, a, b, x);
    }
  }

  lemma DependencyInverts(g: Graph, a: Address, b: Address)
    requires g.DependeesInvert() && a in g.targets
    ensures g.WithDependency(a, b).DependeesInvert()
  {
    AddMembers(g.dependencies, a, b);
    AddMembers(g.dependees, b, a);
    assert b in At(g.dependencies, a) <==> a in At(g.dependees, b);
    if b !in At(g.dependencies, a) {
      AddNoDups(g.dependencies, a, b);
      AddNoDups(g.dependees, b, a);
    }
  }

  lemma SameEdges<A(!new)>(E: set<(A, A)>, F: set<(A, A)>)
    requires forall a, b :: (a, b) in E <==> (a, b) in F
    ensures E == F
  {
    forall e
      ensures e in E <==> e in F
    {
      assert e == (e.0, e.1);
    }
  }

  lemma DependencyEdges(g: Graph, a: Address, b: Address)
    ensures g.WithDependency(a, b).Edges() == g.Edges() + {(a, b)}
  {
    var h := g.WithDependency(a, b);
    AddMembers(g.dependencies, a, b);
    forall x, y
      ensures (x, y) in h.Edges() <==> (x, y) in g.Edges() + {(a, b)}
    {
      EdgeMeans(g, x, y);
      EdgeMeans(h, x, y);
    }
    SameEdges(h.Edges(), g.Edges() + {(a, b)});
  }

  /** Injecting a dependency adds exactly one edge and keeps the graph consistent. */
  lemma DependencyKeepsValid(g: Graph, a: Address, b: Address)
    requires g.Valid() && a in g.targets
    ensures g.WithDependency(a, b).Valid()
    ensures g.WithDependency(a, b).Edges() == g.Edges() + {(a, b)}
  {
    DependencyInverts(g, a, b);
    DependencyEdges(g, a, b);
    assert g.WithDependency(a, b).Derivations() == g.Derivations();
  }

  lemma EdgesSnoc(a: Address, front: seq<Address>, last: Address)
    ensures (set b | b in front + [last] :: (a, b)) == (set b | b in front :: (a, b)) + {(a, last)}
  {
  }

  lemma {:induction false} InjectionFrame(g: Graph, a: Address, bs: seq<Address>)
    ensures var h := g.WithDependencies(a, bs);
            Extends(g, h) && forall x :: x != a ==> At(h.dependencies, x) == At(g.dependencies, x)
  {
    if bs != [] {
      InjectionFrame(g, a, bs[..|bs| - 1]);
      DependencyExtends(g.WithDependencies(a, bs[..|bs| - 1]), a, bs[|bs| - 1]);
    }
  }

  lemma {:induction false} InjectionRest(g: Graph, a: Address, bs: seq<Address>)
    ensures var h := g.WithDependencies(a, bs);
            h == g.(dependencies := h.dependencies, dependees := h.dependees)
  {
    if bs != [] {
      InjectionRest(g, a, bs[..|bs| - 1]);
    }
  }

  lemma {:induction false} DependenciesKeepValid(g: Graph, a: Address, bs: seq<Address>)
    requires g.Valid() && a in g.targets
    ensures g.WithDependencies(a, bs).Valid()
    ensures g.WithDependencies(a, bs).Edges() == g.Edges() + set b | b in bs :: (a, b)
  {
    if bs != [] {
      var front, last := bs[..|bs| - 1], bs[|bs| - 1];
      assert bs == front + [last];
      InjectionFrame(g, a, front);
      DependenciesKeepValid(g, a, front);
      DependencyKeepsValid(g.WithDependencies(a, front), a, last);
      EdgesSnoc(a, front, last);
    }
  }

  /** Dependencies that are there already change nothing. */
  lemma {:induction false} DependenciesThere(g: Graph, a: Address, bs: seq<Address>)
    requires forall b :: b in bs ==> b in At(g.dependencies, a)
    ensures g.WithDependencies(a, bs) == g
  {
    if bs != [] {
      DependenciesThere(g, a, bs[..|bs| - 1]);
    }
  }

  lemma DerivationMeans(g: Graph, a: Address, b: Address)
    ensures (a, b) in g.Derivations() <==> a in g.derivedFrom && g.derivedFrom[a] == b
  {
  }

  lemma NotBelowNew(g: Graph, b: Address, a: Address)
    requires g.Valid() && a !in g.targets && b in g.targets
    ensures !Reach(g.Derivations(), b, a)
  {
    if Reach(g.Derivations(), b, a) {
      var c := ReachLast(g.Derivations(), b, a);
    }
  }

  lemma DerivationEdges(g: Graph, t: Target, b: Address, synthetic: bool)
    requires t.address !in g.derivedFrom
    ensures g.WithTarget(t, Some(b), synthetic).Derivations() == g.Derivations() + {(t.address, b)}
  {
    var a, h := t.address, g.WithTarget(t, Some(b), synthetic);
    forall x, y
      ensures (x, y) in h.Derivations() <==> (x, y) in g.Derivations() + {(a, b)}
    {
      DerivationMeans(g, x, y);
      DerivationMeans(h, x, y);
    }
    SameEdges(h.Derivations(), g.Derivations() + {(a, b)});
  }

  lemma DerivationAdds(g: Graph, t: Target, b: Address, synthetic: bool)
    requires g.Valid() && t.address !in g.targets && b in g.targets
    ensures g.WithTarget(t, Some(b), synthetic).DerivationsForest()
  {
    var a := t.address;
    DerivationEdges(g, t, b, synthetic);
    NotBelowNew(g, b, a);
    AddEdgeAcyclic(g.Derivations(), a, b);
    AddMembers(g.derivatives, b, a);
    assert a !in At(g.derivatives, b);
    AddNoDups(g.derivatives, b, a);
  }

  lemma NothingDerived(g: Graph, t: Target, synthetic: bool)
    requires g.Valid() && t.address !in g.targets
    ensures g.WithTarget(t, None, synthetic).DerivationsForest()
  {
    assert g.WithTarget(t, None, synthetic).Derivations() == g.Derivations();
  }

  /** A new target is derived from nothing or from a known target, so derivations stay a
      forest; edges that were dangling onto its address now end at it. */
  lemma TargetKeepsValid(g: Graph, t: Target, origin: Option<Address>, synthetic: bool)
    requires g.Valid() && t.address !in g.targets && (origin.Some? ==> origin.value in g.targets)
    ensures g.WithTarget(t, origin, synthetic).Valid()
    ensures g.WithTarget(t, origin, synthetic).Edges() == g.Edges()
  {
    if origin.Some? {
      DerivationAdds(g, t, origin.value, synthetic);
    } else {
      NothingDerived(g, t, synthetic);
    }
    assert g.WithTarget(t, origin, synthetic).DependeesInvert();
  }

  // ---- Whole runs ---------------------------------------------------------------------------

  datatype Op =
    | OpTarget(target: Target, deps: seq<Address>, origin: Option<Address>, isSynthetic: bool)
    | OpDependency(dependent: Address, dependency: Address)
    | OpReset

  /** The effect of an operation; one that raises has none. */
  function Apply(g: Graph, op: Op): Graph {
    match op
    case OpTarget(t, deps, origin, isSynthetic) =>
      if t.address !in g.targets && (origin.Some? ==> origin.value in g.targets)
      then g.WithTarget(t, origin, isSynthetic).WithDependencies(t.address, deps) else g
    case OpDependency(a, b) => if a in g.targets then g.WithDependency(a, b) else g
    case OpReset => EMPTY
  }

  /** New dependencies are listed in the order they are given. */
  lemma {:induction false} DependenciesInOrder(g: Graph, a: Address, bs: seq<Address>)
    requires NoDup(bs) && forall b :: b in bs ==> b !in At(g.dependencies, a)
    ensures At(g.WithDependencies(a, bs).dependencies, a) == At(g.dependencies, a) + bs
  {
    if bs != [] {
      var front, last := bs[..|bs| - 1], bs[|bs| - 1];
      var h := g.WithDependencies(a, front);
      DependenciesInOrder(g, a, front);
      assert bs == front + [last] && last !in front;
      assert last !in At(h.dependencies, a);
      AddAt(h.dependencies, a, last, a);
    }
  }

  lemma DependentKnown(g: Graph, a: Address)
    requires g.Valid()
    ensures At(g.dependencies, a) != [] ==> a in g.targets
  {
    if At(g.dependencies, a) != [] {
      assert At(g.dependencies, a)[0] in At(g.dependencies, a);
    }
  }

  lemma TargetDerives(g: Graph, t: Target, origin: Option<Address>, isSynthetic: bool)
    requires t.address !in g.derivedFrom
    ensures g.WithTarget(t, origin, isSynthetic).Derivations() ==
              g.Derivations() + if origin.Some? then {(t.address, origin.value)} else {}
  {
    if origin.Some? {
      DerivationEdges(g, t, origin.value, isSynthetic);
    } else {
      assert g.WithTarget(t, origin, isSynthetic).Derivations() == g.Derivations();
    }
  }

  /** What an injected target brings: itself, its dependencies in order, what it derives from, and
      that it is synthetic, if it is marked so or derives from something. */
  lemma TargetBrings(g: Graph, t: Target, deps: seq<Address>, origin: Option<Address>, isSynthetic: bool)
    requires g.Valid() && t.address !in g.targets && (origin.Some? ==> origin.value in g.targets) && NoDup(deps)
    ensures var h := Apply(g, OpTarget(t, deps, origin, isSynthetic));
            && h.targets == g.targets[t.address := t] && At(h.dependencies, t.address) == deps
            && h.Edges() == g.Edges() + (set d | d in deps :: (t.address, d))
            && h.Derivations() == g.Derivations() + (if origin.Some? then {(t.address, origin.value)} else {})
            && h.synthetic == g.synthetic + (if origin.Some? || isSynthetic then {t.address} else {})
  {
    var g' := g.WithTarget(t, origin, isSynthetic);
    TargetKeepsValid(g, t, origin, isSynthetic);
    DependenciesKeepValid(g', t.address, deps);
    InjectionRest(g', t.address, deps);
    TargetDerives(g, t, origin, isSynthetic);
    DependentKnown(g, t.address);
    DependenciesInOrder(g', t.address, deps);
  }

  function Run(ops: seq<Op>): Graph {
    if ops == [] then EMPTY else Apply(Run(ops[..|ops| - 1]), ops[|ops| - 1])
  }

  /** In every reachable state the dependees invert the dependencies, every dependent is a known
      target, and derivations form a forest. */
  lemma {:induction false} EveryRunValid(ops: seq<Op>)
    ensures Run(ops).Valid()
  {
    EmptyValid();
    if ops != [] {
      var g, op := Run(ops[..|ops| - 1]), ops[|ops| - 1];
      EveryRunValid(ops[..|ops| - 1]);
      match op
      case OpTarget(t, deps, origin, isSynthetic) =>
        if t.address !in g.targets && (origin.Some? ==> origin.value in g.targets) {
          TargetKeepsValid(g, t, origin, isSynthetic);
          DependenciesKeepValid(g.WithTarget(t, origin, isSynthetic), t.address, deps);
        }
      case OpDependency(a, b) =>
        if a in g.targets {
          DependencyKeepsValid(g, a, b);
        }
      case OpReset =>
    }
  }

  // ---- The derivation forest ----------------------------------------------------------------

  /** `o` is where the derivations of `a` end. */
  ghost predicate IsOrigin(g: Graph, a: Address, o: Address) {
    o !in g.derivedFrom && Reach(g.Derivations(), a, o)
  }

  lemma DerivationsFunctional(g: Graph)
    ensures Functional(g.Derivations())
  {
  }

  lemma OriginUnique(g: Graph, a: Address, o: Address, o': Address)
    requires IsOrigin(g, a, o) && IsOrigin(g, a, o')
    ensures o == o'
  {
    var D := g.Derivations();
    DerivationsFunctional(g);
    var p :| Connects(D, p, a, o);
    var q :| Connects(D, q, a, o');
    ChainComparable(D, p, q);
    if o != o' {
      if Reach(D, o, o') {
        var c := ReachFirst(D, o, o');
      } else {
        var c := ReachFirst(D, o', o);
      }
    }
  }

  ghost predicate Derives(g: Graph, a: Address, x: Address) {
    x != a && Reach(g.Derivations(), x, a)
  }

  lemma NotAcrossSiblings(g: Graph, a: Address, c: Address, d: Address)
    requires g.Valid() && c in At(g.derivatives, a) && d in At(g.derivatives, a) && c != d
    ensures !Reach(g.Derivations(), c, d)
  {
    var D := g.Derivations();
    if Reach(D, c, d) {
      var b := ReachFirst(D, c, d);
      DerivationMeans(g, d, a);
    }
  }

  /** Nothing below one derivative of `a` is below another. */
  lemma SiblingsDisjoint(g: Graph, a: Address, c: Address, d: Address, x: Address)
    requires g.Valid() && c in At(g.derivatives, a) && d in At(g.derivatives, a) && c != d
    requires Reach(g.Derivations(), x, c)
    ensures !Reach(g.Derivations(), x, d)
  {
    var D := g.Derivations();
    if Reach(D, x, d) {
      DerivationsFunctional(g);
      var p :| Connects(D, p, x, c);
      var q :| Connects(D, q, x, d);
      ChainComparable(D, p, q);
      if Reach(D, c, d) {
        NotAcrossSiblings(g, a, c, d);
      } else {
        NotAcrossSiblings(g, a, d, c);
      }
    }
  }

  /** What derives from `a` is a direct derivative or derives from one. */
  lemma DerivesStep(g: Graph, a: Address, x: Address)
    requires g.Valid()
    ensures Derives(g, a, x) <==> exists c :: c in At(g.derivatives, a) && Reach(g.Derivations(), x, c)
  {
    var D := g.Derivations();
    if Derives(g, a, x) {
      var c := ReachLast(D, x, a);
      assert c in At(g.derivatives, a);
    }
    if c :| c in At(g.derivatives, a) && Reach(D, x, c) {
      DerivationMeans(g, c, a);
      ReachSnoc(D, x, c, a);
      assert x != a;
    }
  }

  ghost function Below(g: Graph, a: Address): nat {
    Rank(Reverse(g.Derivations()), a)
  }

  lemma BelowDecreases(g: Graph, a: Address, c: Address)
    requires g.Valid() && c in At(g.derivatives, a)
    ensures Below(g, c) < Below(g, a)
  {
    var D := g.Derivations();
    DerivationMeans(g, c, a);
    ReverseEdge(D, a, c);
    ReverseReach(D, a, c);
    RankDecreases(Reverse(D), a, c);
  }

  /** The derivatives listed so far: all below the first `k` direct derivatives. */
  ghost predicate ListsBelow(g: Graph, a: Address, k: nat, out: seq<Address>)
    requires k <= |At(g.derivatives, a)|
  {
    NoDup(out) &&
    forall x :: x in out <==> exists c :: c in At(g.derivatives, a)[..k] && Derives(g, c, x)
  }

  lemma ListsNext(g: Graph, a: Address, k: nat, out: seq<Address>, more: seq<Address>)
    requires g.Valid() && k < |At(g.derivatives, a)| && ListsBelow(g, a, k, out)
    requires NoDup(more) && forall x :: x in more <==> Derives(g, At(g.derivatives, a)[k], x)
    ensures ListsBelow(g, a, k + 1, out + more)
  {
    var direct := At(g.derivatives, a);
    assert direct[..k + 1] == direct[..k] + [direct[k]];
    forall x | x in out
      ensures x !in more
    {
      var c :| c in direct[..k] && Derives(g, c, x);
      var i :| 0 <= i < k && direct[i] == c;
      assert c != direct[k];
      SiblingsDisjoint(g, a, c, direct[k], x);
    }
    NoDupConcat(out, more);
  }

  lemma ListsAll(g: Graph, a: Address, rest: seq<Address>)
    requires g.Valid() && ListsBelow(g, a, |At(g.derivatives, a)|, rest)
    ensures NoDup(At(g.derivatives, a) + rest)
    ensures forall x :: x in At(g.derivatives, a) + rest <==> Derives(g, a, x)
  {
    var D, direct := g.Derivations(), At(g.derivatives, a);
    assert direct[..|direct|] == direct;
    forall x
      ensures x in direct + rest <==> Derives(g, a, x)
    {
      DerivesStep(g, a, x);
      ReachRefl(D, x);
    }
    forall x | x in direct
      ensures x !in rest
    {
      if x in rest {
        var c :| c in direct && Derives(g, c, x);
        NotAcrossSiblings(g, a, x, c);
      }
    }
    NoDupConcat(direct, rest);
  }

  /** For a target derived from nothing, its derivatives are the other targets whose
      derivations end at it. */
  lemma DerivativesByOrigin(g: Graph, c: Address, x: Address)
    requires c !in g.derivedFrom && x != c
    ensures Derives(g, c, x) <==> IsOrigin(g, x, c)
  {
  }

  // ---- The graph object -----------------------------------------------------------------------

  /** A cache that registered for invalidation: lists of targets by their keyword names. */
  class TargetsCache {
    var entries: map<set<string>, seq<Address>>

    constructor ()
      ensures entries == map[]
    {
      entries := map[];
    }

    method Clear()
      modifies this
      ensures entries == map[]
    {
      entries := map[];
    }
  }

  lemma NotOwnOrigin(g: Graph, a: Address)
    requires g.Valid()
    ensures a in g.derivedFrom ==> g.derivedFrom[a] != a
  {
    DerivationMeans(g, a, a);
    ReachRefl(g.Derivations(), a);
  }

  class BuildGraph {
    var targets: map<Address, Target>
    var dependencies: map<Address, seq<Address>>
    var dependees: map<Address, seq<Address>>
    var derivedFrom: map<Address, Address>
    var derivatives: map<Address, seq<Address>>
    var synthetic: set<Address>
    var callbacks: set<TargetsCache>

    function Now(): Graph
      reads this
    {
      Graph(targets, dependencies, dependees, derivedFrom, derivatives, synthetic)
    }

    ghost predicate Valid()
      reads this
    {
      Now().Valid()
    }

    constructor ()
      ensures Valid() && Now() == EMPTY && callbacks == {}
    {
      targets, dependencies, dependees := map[], map[], map[];
      derivedFrom, derivatives, synthetic, callbacks := map[], map[], {}, {};
      EmptyValid();
    }

    method AddInvalidationCallback(c: TargetsCache)
      modifies this`callbacks
      ensures callbacks == old(callbacks) + {c}
    {
      callbacks := callbacks + {c};
    }

    method Invalidated()
      modifies callbacks
      ensures forall c :: c in callbacks ==> c.entries == map[]
    {
      var todo := callbacks;
      while todo != {}
        invariant todo <= callbacks
        invariant forall c :: c in callbacks - todo ==> c.entries == map[]
      {
        var c :| c in todo;
        c.Clear();
        todo := todo - {c};
      }
    }

    method Reset()
      modifies this, callbacks
      ensures Valid() && Now() == Apply(old(Now()), OpReset) && callbacks == old(callbacks)
      ensures forall c :: c in callbacks ==> c.entries == map[]
    {
      Invalidated();
      targets, dependencies, dependees := map[], map[], map[];
      derivedFrom, derivatives, synthetic := map[], map[], {};
      EmptyValid();
    }

    /** Fails exactly when the dependent is unknown; the dependency may be unknown. */
    method InjectDependency(dependent: Address, dependency: Address) returns (ok: bool)
      requires Valid()
      modifies this, callbacks
      ensures Valid() && callbacks == old(callbacks)
      ensures ok == (dependent in old(targets))
      ensures Now() == Apply(old(Now()), OpDependency(dependent, dependency))
      ensures forall c :: c in callbacks ==> c.entries == map[]
    {
      Invalidated();
      if dependent !in targets {
        return false;
      }
      DependencyKeepsValid(Now(), dependent, dependency);
      if dependency !in At(dependencies, dependent) {
        dependencies := Add(dependencies, dependent, dependency);
        dependees := Add(dependees, dependency, dependent);
      }
      return true;
    }

    method AddTarget(t: Target, origin: Option<Address>, isSynthetic: bool)
      requires Valid() && t.address !in targets && (origin.Some? ==> origin.value in targets)
      modifies this`targets, this`derivedFrom, this`derivatives, this`synthetic
      ensures Valid() && Now() == old(Now()).WithTarget(t, origin, isSynthetic)
    {
      ghost var g := Now();
      TargetKeepsValid(g, t, origin, isSynthetic);
      if origin.Some? {
        derivedFrom := derivedFrom[t.address := origin.value];
        derivatives := Add(derivatives, origin.value, t.address);
      }
      if origin.Some? || isSynthetic {
        synthetic := synthetic + {t.address};
      }
      targets := targets[t.address := t];
      assert Now() == g.WithTarget(t, origin, isSynthetic);
    }

    method InjectDependencies(a: Address, deps: seq<Address>)
      requires Valid() && a in targets && forall c :: c in callbacks ==> c.entries == map[]
      modifies this, callbacks
      ensures Valid() && callbacks == old(callbacks)
      ensures Now() == old(Now()).WithDependencies(a, deps)
      ensures forall c :: c in callbacks ==> c.entries == map[]
    {
      ghost var g := Now();
      for i := 0 to |deps|
        invariant Valid() && callbacks == old(callbacks) && a in targets
        invariant Now() == g.WithDependencies(a, deps[..i])
        invariant forall c :: c in callbacks ==> c.entries == map[]
      {
        assert deps[..i + 1][..i] == deps[..i];
        DependenciesKeepValid(g, a, deps[..i]);
        var _ := InjectDependency(a, deps[i]);
      }
      assert deps[..|deps|] == deps;
    }

    /** Fails, changing nothing, exactly when the address is taken or the origin unknown. */
    method InjectTarget(t: Target, deps: seq<Address>, origin: Option<Address>, isSynthetic: bool) returns (ok: bool)
      requires Valid()
      modifies this, callbacks
      ensures Valid() && callbacks == old(callbacks)
      ensures ok == (t.address !in old(targets) && (origin.Some? ==> origin.value in old(targets)))
      ensures Now() == Apply(old(Now()), OpTarget(t, deps, origin, isSynthetic))
      ensures forall c :: c in callbacks ==> c.entries == map[]
    {
      Invalidated();
      if t.address in targets || (origin.Some? && origin.value !in targets) {
        return false;
      }
      AddTarget(t, origin, isSynthetic);
      InjectDependencies(t.address, deps);
      return true;
    }

    /** `walk_transitive_dependency_graph`. */
    method WalkDependencies(roots: seq<Address>, keep: Target -> bool, follow: (Target, Target) -> bool,
                            postorder: bool)
      returns (r: Option<seq<Address>>)
      ensures var v := DependencyView(Now(), keep, follow);
              && (r.None? <==> Broken(v, roots))
              && (r.Some? ==> IsClosure(v, roots, r.value))
              && (r.Some? && postorder ==> ChildrenFirst(v, r.value))
              && (r.Some? && !postorder ==> Preorder(v, Elems(roots), r.value))
    {
      r := DepthFirst(DependencyView(Now(), keep, follow), roots, postorder);
    }

    /** `transitive_subgraph_of_addresses_bfs`. */
    method WalkBreadthFirst(roots: seq<Address>, keep: Target -> bool, follow: (Target, Target) -> bool)
      returns (r: Option<seq<Address>>)
      ensures var v := DependencyView(Now(), keep, follow);
              && (r.None? <==> Broken(v, roots))
              && (r.Some? ==> IsClosure(v, roots, r.value) && NonDecreasing(v, roots, r.value))
    {
      r := Bfs(DependencyView(Now(), keep, follow), roots);
    }

    /** `walk_transitive_dependee_graph`. */
    method WalkDependees(roots: seq<Address>, keep: Target -> bool, postorder: bool) returns (r: Option<seq<Address>>)
      ensures var v := DependeeView(Now(), keep);
              && (r.None? <==> Broken(v, roots))
              && (r.Some? ==> IsClosure(v, roots, r.value))
              && (r.Some? && postorder ==> ChildrenFirst(v, r.value))
              && (r.Some? && !postorder ==> Preorder(v, Elems(roots), r.value))
    {
      r := DepthFirst(DependeeView(Now(), keep), roots, postorder);
    }

    /** Follows derivations to their end. */
    method GetConcreteDerivedFrom(a: Address) returns (r: Option<Target>, ghost origin: Address)
      requires Valid()
      ensures IsOrigin(Now(), a, origin)
      ensures r == if origin in targets then Some(targets[origin]) else None
      ensures a in targets ==> r.Some?
    {
      ghost var D := Now().Derivations();
      var current := a;
      ReachRefl(D, a);
      var next := if current in derivedFrom then derivedFrom[current] else current;
      while next != current
        invariant Reach(D, a, current) && (a in targets ==> current in targets)
        invariant next == if current in derivedFrom then derivedFrom[current] else current
        decreases Rank(D, current)
      {
        DerivationMeans(Now(), current, next);
        RankDecreases(D, current, next);
        ReachSnoc(D, a, current, next);
        current := next;
        next := if current in derivedFrom then derivedFrom[current] else current;
      }
      NotOwnOrigin(Now(), current);
      r, origin := if current in targets then Some(targets[current]) else None, current;
    }

    /** Everything derived from `a`, directly or not, each once. */
    method GetAllDerivatives(a: Address) returns (out: seq<Address>)
      requires Valid()
      ensures NoDup(out) && forall x :: x in out <==> Derives(Now(), a, x)
      decreases Below(Now(), a)
    {
      var direct := At(derivatives, a);
      var rest := [];
      for i := 0 to |direct|
        invariant ListsBelow(Now(), a, i, rest)
      {
        BelowDecreases(Now(), a, direct[i]);
        var more := GetAllDerivatives(direct[i]);
        ListsNext(Now(), a, i, rest, more);
        rest := rest + more;
      }
      ListsAll(Now(), a, rest);
      out := direct + rest;
    }
  }

  /** A walk over dependencies leaves only targets that the predicate accepts, along edges that
      the edge predicate accepts, and works only accepted targets. */
  lemma WalkEdge(g: Graph, keep: Target -> bool, follow: (Target, Target) -> bool, a: Address, b: Address)
    ensures (a, b) in DependencyView(g, keep, follow).Edges() <==>
              && (a, b) in g.Edges() && (a in g.targets ==> keep(g.targets[a]))
              && (a in g.targets && b in g.targets ==> follow(g.targets[a], g.targets[b]))
    ensures DependencyView(g, keep, follow).keep(a) <==> (a in g.targets ==> keep(g.targets[a]))
  {
    ViewEdge(DependencyView(g, keep, follow), a, b);
    EdgeMeans(g, a, b);
  }

  lemma DependeeEdges(g: Graph, keep: Target -> bool, x: Address, y: Address)
    requires g.Valid()
    ensures (x, y) in DependeeView(g, keep).Edges() <==> (y, x) in g.Edges() && (x in g.targets ==> keep(g.targets[x]))
  {
    var v := DependeeView(g, keep);
    EdgeMeans(g, y, x);
    ViewEdge(v, x, y);
    assert v.Succ(x) == At(g.dependees, x);
    assert y in At(g.dependees, x) <==> x in At(g.dependencies, y);
  }

  /** In every consistent graph, a dependee walk without a predicate from known targets
      never meets an unknown address, and visits exactly the targets that have one of the
      roots among their transitive dependencies. */
  lemma DependeeWalk(g: Graph, roots: seq<Address>, keep: Target -> bool)
    requires g.Valid() && (forall r :: r in roots ==> r in g.targets) && forall t :: keep(t)
    ensures !Broken(DependeeView(g, keep), roots)
    ensures forall x :: InClosure(DependeeView(g, keep), roots, x) <==> exists r :: r in roots && Reach(g.Edges(), x, r)
  {
    var v := DependeeView(g, keep);
    var E := g.Edges();
    forall x, y
      ensures (x, y) in v.Edges() <==> (x, y) in Reverse(E)
    {
      DependeeEdges(g, keep, x, y);
      ReverseEdge(E, x, y);
    }
    SameEdges(v.Edges(), Reverse(E));
    forall x, r
      ensures Reach(v.Edges(), r, x) <==> Reach(E, x, r)
    {
      ReverseReach(E, x, r);
    }
    assert forall r :: r in roots <==> r in Elems(roots);
    forall x, y | y in v.Succ(x)
      ensures y in v.known
    {
      assert y in At(g.dependees, x);
      assert x in At(g.dependencies, y);
    }
  }
}
