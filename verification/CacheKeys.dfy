/** When it is enough that the key of the target cache holds the names of keywords, and what
    happens otherwise (src/python/pants/goal/context.py). */
module CacheKeys {
  import opened Wrappers
  import opened Graphs
  import opened Addresses
  import opened Walks
  import opened BreadthFirst
  import opened BuildGraphs
  import opened Closures
  import opened Contexts

  /** On this graph, everything that is right for `s` is right for `s'`. */
  ghost predicate RightOn(g: Graph, roots: seq<Address>, s: Settings, s': Settings) {
    g.Valid() && !Stuck(g, s, roots) ==>
      !Stuck(g, s', roots) && forall out :: IsListing(g, s, roots, out) ==> IsListing(g, s', roots, out)
  }

  /** On this graph, nothing that is right for `s` is right for `s'`. */
  ghost predicate WrongOn(g: Graph, roots: seq<Address>, s: Settings, s': Settings) {
    g.Valid() && !Stuck(g, s, roots) && forall out :: IsListing(g, s, roots, out) ==> !IsListing(g, s', roots, out)
  }

  /** Without synthetic targets or unknown ones, a query gives the closure of its roots. */
  lemma PlainListing(g: Graph, s: Settings, roots: seq<Address>)
    requires g.synthetic == {} && (forall r :: r in roots ==> r in g.targets)
    requires forall a, b :: (a, b) in g.Edges() ==> b in g.targets
    ensures !Stuck(g, s, roots)
    ensures forall x :: InPlay(g, s, roots, x) <==> InTargets(g, s, roots, x)
    ensures forall out :: IsListing(g, s, roots, out) ==> IsClosureOf(g, s, roots, out)
  {
    var none: seq<Address> := [];
    assert AreSynthetics(g, s, roots, none);
    InPlayIs(g, s, roots, none);
    StuckIs(g, s, roots, none);
    DanglingIs(g, s, roots);
    DanglingIs(g, s, none);
    forall x, y | y in At(g.dependencies, x)
      ensures y in g.targets
    {
      EdgeMeans(g, x, y);
    }
    forall out | IsListing(g, s, roots, out)
      ensures IsClosureOf(g, s, roots, out)
    {
      var closure, syn, more :| AreClosures(g, s, roots, closure, syn, more) && out == Update(closure, more);
      assert forall x :: x !in syn;
      UpdateNothing(closure, more);
    }
  }

  // ---- Different filters ------------------------------------------------------------------------

  const ROOT := Address("", "top")
  const MIDDLE := Address("", "middle")
  const LEAF := Address("", "leaf")

  /** A root, a target it depends on, and one that this depends on. */
  function ThreeTargets(middle: Target, leaf: Target): Graph
    requires middle.address == MIDDLE && leaf.address == LEAF
  {
    Graph(map[ROOT := Target(ROOT, leaf.scope, true, false), MIDDLE := middle, LEAF := leaf],
          map[ROOT := [MIDDLE], MIDDLE := [LEAF]], map[MIDDLE := [ROOT], LEAF := [MIDDLE]], map[], map[], {})
  }

  lemma ThreeTargetsValid(middle: Target, leaf: Target)
    requires middle.address == MIDDLE && leaf.address == LEAF
    ensures ThreeTargets(middle, leaf).Valid()
    ensures forall a, b :: (a, b) in ThreeTargets(middle, leaf).Edges() <==>
              (a, b) == (ROOT, MIDDLE) || (a, b) == (MIDDLE, LEAF)
  {
    var g := ThreeTargets(middle, leaf);
    assert g.DependeesInvert();
    forall a, b
      ensures (a, b) in g.Edges() <==> (a, b) == (ROOT, MIDDLE) || (a, b) == (MIDDLE, LEAF)
    {
      EdgeMeans(g, a, b);
    }
  }

  lemma ChainReach(E: set<(Address, Address)>)
    requires forall a, b :: (a, b) in E ==> (a, b) == (ROOT, MIDDLE) || (a, b) == (MIDDLE, LEAF)
    ensures ReachFrom(E, Elems([ROOT]), MIDDLE) <==> (ROOT, MIDDLE) in E
    ensures (ROOT, MIDDLE) in E ==> (ReachFrom(E, Elems([ROOT]), LEAF) <==> (MIDDLE, LEAF) in E)
  {
    assert ROOT in Elems([ROOT]) && forall r :: r in Elems([ROOT]) ==> r == ROOT;
    if Reach(E, ROOT, MIDDLE) {
      var c := ReachLast(E, ROOT, MIDDLE);
    }
    if (ROOT, MIDDLE) in E {
      ReachEdge(E, ROOT, MIDDLE);
      if (MIDDLE, LEAF) in E {
        ReachSnoc(E, ROOT, MIDDLE, LEAF);
      }
      if Reach(E, ROOT, LEAF) {
        var c := ReachLast(E, ROOT, LEAF);
      }
    }
  }

  lemma ThreeInPlay(s: Settings, middle: Target, leaf: Target)
    requires middle.address == MIDDLE && leaf.address == LEAF
    ensures var g := ThreeTargets(middle, leaf);
            && (InPlay(g, s, [ROOT], MIDDLE) <==> Admits(s, middle.scope, middle.transitive, true))
            && (Admits(s, middle.scope, middle.transitive, true) ==>
                  (InPlay(g, s, [ROOT], LEAF) <==> Admits(s, leaf.scope, leaf.transitive, false)))
  {
    var g := ThreeTargets(middle, leaf);
    var E := ClosureView(g, s, [ROOT]).Edges();
    ThreeTargetsValid(middle, leaf);
    forall a, b
      ensures (a, b) in E <==> || ((a, b) == (ROOT, MIDDLE) && Admits(s, middle.scope, middle.transitive, true))
                               || ((a, b) == (MIDDLE, LEAF) && Admits(s, leaf.scope, leaf.transitive, false))
    {
      ClosureEdge(g, s, [ROOT], a, b);
    }
    PlainListing(g, s, [ROOT]);
    ChainReach(E);
  }

  /** One target below the root to be followed or not, or two if the root is to be passed. */
  function Chain(scope: Scope, transitive: bool, fromRoot: bool): Graph {
    ThreeTargets(Target(MIDDLE, scope, transitive || !fromRoot, false), Target(LEAF, scope, transitive, false))
  }

  /** Settings of which one admits what the other does not are told apart by the chain. */
  lemma ChainTells(s: Settings, s': Settings, scope: Scope, transitive: bool, fromRoot: bool)
    requires Admits(s, scope, transitive, fromRoot) != Admits(s', scope, transitive, fromRoot)
    ensures WrongOn(Chain(scope, transitive, fromRoot), [ROOT], s, s')
  {
    var middle := Target(MIDDLE, scope, transitive || !fromRoot, false);
    var leaf := Target(LEAF, scope, transitive, false);
    var g := ThreeTargets(middle, leaf);
    ThreeTargetsValid(middle, leaf);
    ThreeInPlay(s, middle, leaf);
    ThreeInPlay(s', middle, leaf);
    PlainListing(g, s, [ROOT]);
    assert exists x :: InPlay(g, s, [ROOT], x) != InPlay(g, s', [ROOT], x) by {
      assert InPlay(g, s, [ROOT], MIDDLE) != InPlay(g, s', [ROOT], MIDDLE)
          || InPlay(g, s, [ROOT], LEAF) != InPlay(g, s', [ROOT], LEAF);
    }
    forall out | IsListing(g, s, [ROOT], out) && IsListing(g, s', [ROOT], out)
      ensures false
    {
      ListingMembers(g, s, [ROOT], out);
      ListingMembers(g, s', [ROOT], out);
    }
  }

  // ---- Different traversals ---------------------------------------------------------------------

  const SIDE := Address("", "aside")
  const TWIG := Address("", "outside")

  /** A root with two dependencies, each of which has a dependency of its own. */
  function Fork(scope: Scope): Graph {
    Graph(map[ROOT := Target(ROOT, scope, true, false), MIDDLE := Target(MIDDLE, scope, true, false),
              SIDE := Target(SIDE, scope, true, false), LEAF := Target(LEAF, scope, true, false),
              TWIG := Target(TWIG, scope, true, false)],
          map[ROOT := [MIDDLE, SIDE], MIDDLE := [LEAF], SIDE := [TWIG]],
          map[MIDDLE := [ROOT], SIDE := [ROOT], LEAF := [MIDDLE], TWIG := [SIDE]], map[], map[], {})
  }

  ghost function ForkEdges(): set<(Address, Address)> {
    {(ROOT, MIDDLE), (ROOT, SIDE), (MIDDLE, LEAF), (SIDE, TWIG)}
  }

  lemma ForkEdge(scope: Scope, a: Address, b: Address)
    ensures b in At(Fork(scope).dependencies, a) <==> (a, b) in ForkEdges()
    ensures a in At(Fork(scope).dependees, b) <==> (a, b) in ForkEdges()
    ensures (a, b) in ForkEdges() ==> a in Fork(scope).targets && b in Fork(scope).targets
  {
  }

  lemma ForkNoDups(scope: Scope)
    ensures NoDups(Fork(scope).dependencies) && NoDups(Fork(scope).dependees)
  {
  }

  lemma ForkInverts(scope: Scope)
    ensures Fork(scope).DependeesInvert()
  {
    var g := Fork(scope);
    forall a, b
      ensures b in At(g.dependencies, a) <==> a in At(g.dependees, b)
      ensures b in At(g.dependencies, a) ==> a in g.targets
    {
      ForkEdge(scope, a, b);
    }
    ForkNoDups(scope);
  }

  lemma ForkValid(scope: Scope)
    ensures Fork(scope).Valid() && forall a, b :: (a, b) in Fork(scope).Edges() <==> (a, b) in ForkEdges()
  {
    ForkInverts(scope);
    assert Fork(scope).DerivationsForest();
    forall a, b
      ensures (a, b) in Fork(scope).Edges() <==> (a, b) in ForkEdges()
    {
      ForkEdge(scope, a, b);
      EdgeMeans(Fork(scope), a, b);
    }
  }

  /** Settings that admit the scope follow all dependencies of the fork. */
  lemma ForkView(s: Settings, scope: Scope)
    requires InScope(scope, s.excluded, s.included)
    ensures ClosureView(Fork(scope), s, [ROOT]).Edges() == ForkEdges()
  {
    ForkValid(scope);
    forall a, b
      ensures (a, b) in ClosureView(Fork(scope), s, [ROOT]).Edges() <==> (a, b) in ForkEdges()
    {
      ClosureEdge(Fork(scope), s, [ROOT], a, b);
    }
    SameEdges(ClosureView(Fork(scope), s, [ROOT]).Edges(), ForkEdges());
  }

  lemma ForkDistances()
    ensures var E := ForkEdges();
            && AtDistance(E, [ROOT], 0, ROOT) && AtDistance(E, [ROOT], 1, MIDDLE) && AtDistance(E, [ROOT], 1, SIDE)
            && AtDistance(E, [ROOT], 2, LEAF) && AtDistance(E, [ROOT], 2, TWIG)
  {
    var E := ForkEdges();
    assert InSteps(E, [ROOT], 0, ROOT);
    assert InSteps(E, [ROOT], 1, MIDDLE) && InSteps(E, [ROOT], 1, SIDE);
    assert InSteps(E, [ROOT], 2, LEAF) && InSteps(E, [ROOT], 2, TWIG);
    forall x | InSteps(E, [ROOT], 1, x)
      ensures x == MIDDLE || x == SIDE
    {
      var a :| InSteps(E, [ROOT], 0, a) && (a, x) in E;
    }
  }

  /** `out` lists the five targets, each once. */
  ghost predicate ListsFork(out: seq<Address>) {
    NoDup(out) && {ROOT, MIDDLE, SIDE, LEAF, TWIG} <= Elems(out)
  }

  lemma ForkReached(s: Settings, scope: Scope, n: nat, x: Address)
    requires InScope(scope, s.excluded, s.included) && AtDistance(ForkEdges(), [ROOT], n, x)
    ensures InTargets(Fork(scope), s, [ROOT], x)
  {
    ForkView(s, scope);
    InStepsReach(ForkEdges(), [ROOT], n, x);
  }

  lemma ForkListed(s: Settings, scope: Scope, out: seq<Address>)
    requires InScope(scope, s.excluded, s.included) && IsClosureOf(Fork(scope), s, [ROOT], out)
    ensures ListsFork(out)
  {
    ForkDistances();
    ForkReached(s, scope, 0, ROOT);
    ForkReached(s, scope, 1, MIDDLE);
    ForkReached(s, scope, 1, SIDE);
    ForkReached(s, scope, 2, LEAF);
    ForkReached(s, scope, 2, TWIG);
  }

  lemma EitherBefore(out: seq<Address>, x: Address, y: Address)
    requires NoDup(out) && x in out && y in out && x != y
    ensures Before(out, x, y) != Before(out, y, x)
  {
    BeforeIndices(out, IndexOf(out, x), IndexOf(out, y));
    BeforeIndices(out, IndexOf(out, y), IndexOf(out, x));
  }

  /** A view of the fork that follows and keeps everything. */
  ghost predicate SeesFork(v: View<Address>) {
    v.Edges() == ForkEdges() && forall x :: v.keep(x)
  }

  lemma PostorderOfFork(v: View<Address>, out: seq<Address>)
    requires SeesFork(v) && ListsFork(out) && ChildrenFirst(v, out)
    ensures Before(out, MIDDLE, ROOT)
  {
    assert (ROOT, MIDDLE) in ForkEdges();
    if Reach(ForkEdges(), MIDDLE, ROOT) {
      var c := ReachLast(ForkEdges(), MIDDLE, ROOT);
    }
  }

  lemma PreorderOfFork(v: View<Address>, out: seq<Address>)
    requires SeesFork(v) && ListsFork(out) && Preorder(v, Elems([ROOT]), out)
    ensures Before(out, ROOT, MIDDLE) && Before(out, ROOT, SIDE) && DepthOrdered(ForkEdges(), out)
  {
    assert MIDDLE !in Elems([ROOT]) && SIDE !in Elems([ROOT]);
    assert HasEarlierParent(v, out, MIDDLE) && HasEarlierParent(v, out, SIDE);
  }

  lemma DistanceBefore(v: View<Address>, out: seq<Address>, m: nat, x: Address, n: nat, y: Address)
    requires NoDup(out) && x in out && y in out && NonDecreasing(v, [ROOT], out)
    requires AtDistance(v.Edges(), [ROOT], m, x) && AtDistance(v.Edges(), [ROOT], n, y) && m < n
    ensures Before(out, x, y)
  {
    var i, j := IndexOf(out, x), IndexOf(out, y);
    if i == j {
      DistanceUnique(v.Edges(), [ROOT], m, n, x);
    } else {
      BeforeIndices(out, i, j);
    }
  }

  /** In depth order, one branch is not entered between the other and its dependency. */
  lemma NotBetween(out: seq<Address>, x: Address, y: Address, z: Address)
    requires NoDup(out) && DepthOrdered(ForkEdges(), out) && (x, z) in ForkEdges()
    requires Before(out, ROOT, x) && Before(out, x, y) && forall p :: (p, y) in ForkEdges() ==> p == ROOT
    ensures !Before(out, y, z)
  {
    var i, j :| 0 <= i < j < |out| && out[i] == x && out[j] == y;
    assert !HasParentFrom(ForkEdges(), out, i, j);
    forall k | j < k < |out|
      ensures out[k] != z
    {
      assert (out[i], out[k]) !in ForkEdges();
    }
  }

  lemma BreadthIsNotDepth(out: seq<Address>)
    requires ListsFork(out) && DepthOrdered(ForkEdges(), out)
    requires Before(out, ROOT, MIDDLE) && Before(out, ROOT, SIDE)
    ensures !(Before(out, SIDE, LEAF) && Before(out, MIDDLE, TWIG))
  {
    EitherBefore(out, MIDDLE, SIDE);
    if Before(out, MIDDLE, SIDE) {
      NotBetween(out, MIDDLE, SIDE, LEAF);
    } else {
      NotBetween(out, SIDE, MIDDLE, TWIG);
    }
  }

  datatype Traversal = ByDistance | ChildrenBefore | InDepth

  function TraversalOf(s: Settings): Traversal {
    if s.bfs then ByDistance else if s.postorder then ChildrenBefore else InDepth
  }

  /** The traversal that lists the fork like this. */
  ghost function Recognize(out: seq<Address>): Traversal {
    if Before(out, MIDDLE, ROOT) then ChildrenBefore
    else if Before(out, SIDE, LEAF) && Before(out, MIDDLE, TWIG) then ByDistance
    else InDepth
  }

  lemma OrderOfFork(s: Settings, scope: Scope, out: seq<Address>)
    requires InScope(scope, s.excluded, s.included) && ListsFork(out) && InOrder(Fork(scope), s, [ROOT], out)
    ensures Recognize(out) == TraversalOf(s)
  {
    var v := ClosureView(Fork(scope), s, [ROOT]);
    ForkView(s, scope);
    KeepsAll(Fork(scope), s, [ROOT]);
    EitherBefore(out, ROOT, MIDDLE);
    if s.bfs {
      ForkDistances();
      DistanceBefore(v, out, 0, ROOT, 1, MIDDLE);
      DistanceBefore(v, out, 1, SIDE, 2, LEAF);
      DistanceBefore(v, out, 1, MIDDLE, 2, TWIG);
    } else if s.postorder {
      PostorderOfFork(v, out);
    } else {
      PreorderOfFork(v, out);
      BreadthIsNotDepth(out);
    }
  }

  /** A listing of the fork gives its traversal away. */
  lemma TraversalsDiffer(s: Settings, s': Settings, scope: Scope, out: seq<Address>)
    requires InScope(scope, s.excluded, s.included) && InScope(scope, s'.excluded, s'.included) && ListsFork(out)
    requires InOrder(Fork(scope), s, [ROOT], out) && InOrder(Fork(scope), s', [ROOT], out)
    ensures TraversalOf(s) == TraversalOf(s')
  {
    OrderOfFork(s, scope, out);
    OrderOfFork(s', scope, out);
  }

  /** Settings that follow the scope in different traversals are told apart by the fork. */
  lemma ForkTells(s: Settings, s': Settings, scope: Scope)
    requires InScope(scope, s.excluded, s.included) && InScope(scope, s'.excluded, s'.included)
    requires !SameTraversal(s, s')
    ensures WrongOn(Fork(scope), [ROOT], s, s')
  {
    var g := Fork(scope);
    ForkValid(scope);
    PlainListing(g, s, [ROOT]);
    PlainListing(g, s', [ROOT]);
    forall out | IsListing(g, s, [ROOT], out)
      ensures !IsListing(g, s', [ROOT], out)
    {
      ForkListed(s, scope, out);
      if IsListing(g, s', [ROOT], out) {
        TraversalsDiffer(s, s', scope, out);
      }
    }
  }

  lemma CommonScope(s: Settings, s': Settings, U: set<ScopeName>)
    requires Covers(U, s, s') && SameFilter(s, s') && !Blocks(s)
    ensures exists n :: n in U && InScope({n}, s.excluded, s.included) && InScope({n}, s'.excluded, s'.included)
  {
    Admitted(s, s', U);
    var n :| n in U && n !in Names(s.excluded) && InScope({n, n}, s.excluded, s.included);
    assert {n, n} == {n};
    SameInScope(s, s', {n});
  }

  // ---- The exact condition ----------------------------------------------------------------------

  /** A list cached for `s` is right for `s'` on every graph exactly when `s` serves `s'`; and
      where it does not, some graph makes every such list wrong. */
  lemma KeySuffices(s: Settings, s': Settings)
    ensures Serves(s, s') ==> forall g, roots :: RightOn(g, roots, s, s')
    ensures !Serves(s, s') ==> exists g, roots :: WrongOn(g, roots, s, s')
  {
    if Serves(s, s') {
      FilterExactly(s', s);
      forall g: Graph, roots | g.Valid() && !Stuck(g, s, roots)
        ensures RightOn(g, roots, s, s')
      {
        if Stuck(g, s', roots) {
          AlikeStuck(g, s', s, roots);
        }
        forall out | IsListing(g, s, roots, out)
          ensures IsListing(g, s', roots, out)
        {
          ServedListing(g, s, s', roots, out);
        }
      }
    } else if SameFilter(s, s') {
      SomeCover(s, s');
      var U :| Covers(U, s, s');
      CommonScope(s, s', U);
      var n :| n in U && InScope({n}, s.excluded, s.included) && InScope({n}, s'.excluded, s'.included);
      ForkTells(s, s', {n});
    } else {
      FilterExactly(s, s');
      var scope: Scope, transitive, fromRoot :|
        Admits(s, scope, transitive, fromRoot) != Admits(s', scope, transitive, fromRoot);
      ChainTells(s, s', scope, transitive, fromRoot);
    }
  }

  /** A query without a predicate gives the whole cached list. */
  method QueryAll(context: Context, kwargs: Kwargs) returns (r: seq<Address>)
    requires context.Valid()
    requires kwargs.Keys in context.cache.entries || !Stuck(context.graph.Now(), SettingsOf(kwargs), context.roots)
    modifies context`filled, context.cache
    ensures context.Valid() && kwargs.Keys in context.cache.entries && r == context.cache.entries[kwargs.Keys]
    ensures context.Used(kwargs) == old(context.Used(kwargs))
    ensures IsListing(context.graph.Now(), context.Used(kwargs), context.roots, r)
    ensures old(kwargs.Keys in context.cache.entries) ==> context.cache.entries == old(context.cache.entries)
  {
    var ok := context.Fill(kwargs);
    r := context.cache.entries[kwargs.Keys];
    assert IsAnswer(context.graph.Now(), context.roots, context.filled[kwargs.Keys], r);
  }

  /** Two queries with the same keywords but other values: the second gets the list of the
      first, right for its own values if those of the first serve them, and wrong on every
      graph that tells the two apart. */
  method QueryTwice(context: Context, first: Kwargs, second: Kwargs) returns (r: seq<Address>, r': seq<Address>)
    requires context.Valid() && first.Keys == second.Keys && first.Keys !in context.cache.entries
    requires !Stuck(context.graph.Now(), SettingsOf(first), context.roots)
    modifies context`filled, context.cache
    ensures context.Valid() && r' == r
    ensures second.Keys in context.cache.entries && r' == context.cache.entries[second.Keys]
    ensures IsListing(context.graph.Now(), SettingsOf(first), context.roots, r)
    ensures Serves(SettingsOf(first), SettingsOf(second)) ==>
              IsListing(context.graph.Now(), SettingsOf(second), context.roots, r')
    ensures WrongOn(context.graph.Now(), context.roots, SettingsOf(first), SettingsOf(second)) ==>
              !IsListing(context.graph.Now(), SettingsOf(second), context.roots, r')
  {
    r := QueryAll(context, first);
    r' := QueryAll(context, second);
    if Serves(SettingsOf(first), SettingsOf(second)) {
      ServedListing(context.graph.Now(), SettingsOf(first), SettingsOf(second), context.roots, r);
    }
  }

  // ---- A run that gets a wrong answer -----------------------------------------------------------

  /** The targets, without dependencies. */
  function Loose(targets: map<Address, Target>): Graph {
    Graph(targets, map[], map[], map[], map[], {})
  }

  method AddLoose(graph: BuildGraph, t: Target)
    requires graph.Valid() && graph.callbacks == {} && t.address !in graph.targets
    requires graph.Now() == Loose(graph.targets)
    modifies graph
    ensures graph.Valid() && graph.callbacks == {}
    ensures graph.Now() == Loose(old(graph.targets)[t.address := t])
  {
    var ok := graph.InjectTarget(t, [], None, false);
  }

  /** A dependency on a target that has no dependee yet. */
  method Link(graph: BuildGraph, a: Address, b: Address)
    requires graph.Valid() && graph.callbacks == {} && a in graph.targets && b !in graph.dependees
    modifies graph
    ensures graph.Valid() && graph.callbacks == {}
    ensures var g := old(graph.Now());
            graph.Now() == g.(dependencies := g.dependencies[a := At(g.dependencies, a) + [b]],
                              dependees := g.dependees[b := [a]])
  {
    assert b !in At(graph.dependencies, a) by {
      assert a !in At(graph.dependees, b);
    }
    assert [] + [a] == [a];
    var ok := graph.InjectDependency(a, b);
  }

  method BuildLoose(targets: map<Address, Target>) returns (graph: BuildGraph)
    requires forall a :: a in targets ==> targets[a].address == a
    ensures fresh(graph) && graph.Valid() && graph.callbacks == {} && graph.Now() == Loose(targets)
  {
    graph := new BuildGraph();
    var todo := targets.Keys;
    while todo != {}
      invariant todo <= targets.Keys && fresh(graph) && graph.Valid() && graph.callbacks == {}
      invariant graph.Now() == Loose(targets - todo)
    {
      var a :| a in todo;
      assert targets - (todo - {a}) == (targets - todo)[a := targets[a]];
      AddLoose(graph, targets[a]);
      todo := todo - {a};
    }
    assert targets - {} == targets;
  }

  method BuildChain(scope: Scope, transitive: bool, fromRoot: bool) returns (graph: BuildGraph)
    ensures fresh(graph) && graph.Valid() && graph.callbacks == {} && graph.Now() == Chain(scope, transitive, fromRoot)
  {
    graph := BuildLoose(Chain(scope, transitive, fromRoot).targets);
    Link(graph, ROOT, MIDDLE);
    Link(graph, MIDDLE, LEAF);
    assert [] + [MIDDLE] == [MIDDLE] && [] + [LEAF] == [LEAF];
  }

  /** The root's two dependencies. */
  method LinkRoot(graph: BuildGraph)
    requires graph.Valid() && graph.callbacks == {} && graph.Now() == Loose(graph.targets) && ROOT in graph.targets
    modifies graph
    ensures graph.Valid() && graph.callbacks == {} && graph.targets == old(graph.targets)
    ensures graph.Now() == Loose(graph.targets).(dependencies := map[ROOT := [MIDDLE, SIDE]],
                                                 dependees := map[MIDDLE := [ROOT], SIDE := [ROOT]])
  {
    Link(graph, ROOT, MIDDLE);
    Link(graph, ROOT, SIDE);
    assert [] + [MIDDLE] + [SIDE] == [MIDDLE, SIDE];
  }

  method BuildFork(scope: Scope) returns (graph: BuildGraph)
    ensures fresh(graph) && graph.Valid() && graph.callbacks == {} && graph.Now() == Fork(scope)
  {
    graph := BuildLoose(Fork(scope).targets);
    LinkRoot(graph);
    Link(graph, MIDDLE, LEAF);
    Link(graph, SIDE, TWIG);
    assert [] + [LEAF] == [LEAF] && [] + [TWIG] == [TWIG];
  }

  /** Builds a graph that tells settings apart which do not serve each other. */
  method BuildTelling(s: Settings, s': Settings) returns (graph: BuildGraph)
    requires !Serves(s, s')
    ensures fresh(graph) && graph.Valid() && graph.callbacks == {} && WrongOn(graph.Now(), [ROOT], s, s')
  {
    var names := Mentioned(s) + Mentioned(s');
    var n := FreshName(names);
    var U := names + {n};
    assert Covers(U, s, s');
    if AlikeOn(s, s', U) {
      AlikeSame(s, s', U);
      CommonScope(s, s', U);
      var m :| m in U && InScope({m}, s.excluded, s.included) && InScope({m}, s'.excluded, s'.included);
      graph := BuildFork({m});
      ForkTells(s, s', {m});
    } else {
      var k, m, transitive, fromRoot :|
        k in U && m in U && Admits(s, {k, m}, transitive, fromRoot) != Admits(s', {k, m}, transitive, fromRoot);
      graph := BuildChain({k, m}, transitive, fromRoot);
      ChainTells(s, s', {k, m}, transitive, fromRoot);
    }
  }

  /** Whenever the values of two calls do not serve each other, some run answers the second
      call wrongly: it gets a list that is right for the first and not for itself. */
  method WrongAnswer(first: Kwargs, second: Kwargs) returns (context: Context, r: seq<Address>)
    requires first.Keys == second.Keys && !Serves(SettingsOf(first), SettingsOf(second))
    ensures fresh(context) && context.Valid()
    ensures second.Keys in context.cache.entries && r == context.cache.entries[second.Keys]
    ensures IsListing(context.graph.Now(), SettingsOf(first), context.roots, r)
    ensures !IsListing(context.graph.Now(), SettingsOf(second), context.roots, r)
  {
    var graph := BuildTelling(SettingsOf(first), SettingsOf(second));
    context := new Context(graph, [ROOT]);
    var r0;
    r0, r := QueryTwice(context, first, second);
  }
}
