/** The targets in play in a run, cached until the graph or the roots change
    (src/python/pants/goal/context.py). */
module Contexts {
  import opened Wrappers
  import opened Graphs
  import opened Addresses
  import opened BreadthFirst
  import opened BuildGraphs
  import opened Closures

  /** A keyword argument: scopes or a flag. */
  datatype Arg = ScopeArg(scope: Option<Scope>) | FlagArg(flag: bool)

  type Kwargs = map<string, Arg>

  function ScopeOf(k: Kwargs, name: string): Option<Scope> {
    if name in k && k[name].ScopeArg? then k[name].scope else None
  }

  function FlagOf(k: Kwargs, name: string): bool {
    name in k && k[name].FlagArg? && k[name].flag
  }

  function SettingsOf(k: Kwargs): Settings {
    Settings(ScopeOf(k, "exclude_scopes"), ScopeOf(k, "include_scopes"), FlagOf(k, "bfs"), FlagOf(k, "postorder"),
             FlagOf(k, "respect_intransitive"))
  }

  /** The synthetic targets whose concrete origin is in the closure of the roots, each once. */
  ghost predicate AreSynthetics(g: Graph, s: Settings, roots: seq<Address>, syn: seq<Address>) {
    NoDup(syn) &&
    forall x :: x in syn <==> x in g.synthetic && exists o :: IsOrigin(g, x, o) && InTargets(g, s, roots, o)
  }

  /** The targets in play: the closure of the roots, and the closure of the synthetics that
      derive from it. */
  ghost predicate InPlay(g: Graph, s: Settings, roots: seq<Address>, x: Address) {
    InTargets(g, s, roots, x) || exists syn :: AreSynthetics(g, s, roots, syn) && InTargets(g, s, syn, x)
  }

  /** A closure does not depend on the order of its roots. */
  lemma RootOrder(g: Graph, s: Settings, roots: seq<Address>, roots': seq<Address>)
    requires forall r :: r in roots <==> r in roots'
    ensures forall x :: InTargets(g, s, roots, x) <==> InTargets(g, s, roots', x)
  {
    forall a, b
      ensures (a, b) in ClosureView(g, s, roots).Edges() <==> (a, b) in ClosureView(g, s, roots').Edges()
    {
      ClosureEdge(g, s, roots, a, b);
      ClosureEdge(g, s, roots', a, b);
    }
    SameEdges(ClosureView(g, s, roots).Edges(), ClosureView(g, s, roots').Edges());
    assert Elems(roots) == Elems(roots');
  }

  /** With any listing of the synthetics, the targets in play are the union of two closures. */
  lemma InPlayIs(g: Graph, s: Settings, roots: seq<Address>, syn: seq<Address>)
    requires AreSynthetics(g, s, roots, syn)
    ensures forall x :: InPlay(g, s, roots, x) <==> InTargets(g, s, roots, x) || InTargets(g, s, syn, x)
  {
    forall x | InPlay(g, s, roots, x) && !InTargets(g, s, roots, x)
      ensures InTargets(g, s, syn, x)
    {
      var syn' :| AreSynthetics(g, s, roots, syn') && InTargets(g, s, syn', x);
      RootOrder(g, s, syn, syn');
    }
  }

  /** The query needs a target that is not in the graph. */
  ghost predicate Stuck(g: Graph, s: Settings, roots: seq<Address>) {
    Dangling(g, s, roots) || exists syn :: AreSynthetics(g, s, roots, syn) && Dangling(g, s, syn)
  }

  /** `closure` lists the closure of the roots, and `more` that of the synthetics, in the order
      of the traversal. */
  ghost predicate AreClosures(g: Graph, s: Settings, roots: seq<Address>, closure: seq<Address>,
                              syn: seq<Address>, more: seq<Address>) {
    IsClosureOf(g, s, roots, closure) && AreSynthetics(g, s, roots, syn) && IsClosureOf(g, s, syn, more)
  }

  /** `out` is right for the settings: the closure of the roots in the order of the traversal,
      followed by what the closure of the synthetics adds, in its order. */
  ghost predicate IsListing(g: Graph, s: Settings, roots: seq<Address>, out: seq<Address>) {
    exists closure, syn, more :: AreClosures(g, s, roots, closure, syn, more) && out == Update(closure, more)
  }

  /** A listing has the targets in play, each once, and starts with the closure of the roots. */
  lemma ListingMembers(g: Graph, s: Settings, roots: seq<Address>, out: seq<Address>)
    requires IsListing(g, s, roots, out)
    ensures NoDup(out) && forall x :: x in out <==> InPlay(g, s, roots, x)
    ensures exists n :: 0 <= n <= |out| && IsClosureOf(g, s, roots, out[..n])
  {
    var closure, syn, more :| AreClosures(g, s, roots, closure, syn, more) && out == Update(closure, more);
    UpdateMembers(closure, more);
    UpdatePrefix(closure, more);
    InPlayIs(g, s, roots, syn);
    assert out[..|closure|] == closure;
  }

  /** The synthetics of a closure, by the loop over `synthetic_addresses`. */
  method Synthetics(graph: BuildGraph, s: Settings, roots: seq<Address>, closure: seq<Address>)
    returns (syn: seq<Address>)
    requires graph.Valid() && forall x :: x in closure <==> InTargets(graph.Now(), s, roots, x)
    ensures AreSynthetics(graph.Now(), s, roots, syn)
  {
    syn := [];
    var todo := graph.synthetic;
    while todo != {}
      invariant todo <= graph.synthetic && NoDup(syn) && (forall x :: x in syn ==> x !in todo)
      invariant forall x :: x in syn <==>
                  x in graph.synthetic - todo &&
                  exists o :: IsOrigin(graph.Now(), x, o) && InTargets(graph.Now(), s, roots, o)
    {
      var a :| a in todo;
      var origin, o := graph.GetConcreteDerivedFrom(a);
      assert forall o' :: IsOrigin(graph.Now(), a, o') ==> o' == o by {
        forall o' | IsOrigin(graph.Now(), a, o')
          ensures o' == o
        {
          OriginUnique(graph.Now(), a, o, o');
        }
      }
      assert origin.Some? && origin.value.address == o;
      todo := todo - {a};
      if origin.value.address in closure {
        syn := syn + [a];
      }
    }
  }

  /** A closure is stuck exactly when it reaches an unknown root or dependency. */
  lemma DanglingIs(g: Graph, s: Settings, roots: seq<Address>)
    ensures Dangling(g, s, roots) <==>
              || (exists r :: r in roots && r !in g.targets)
              || (exists x, y :: InTargets(g, s, roots, x) && y in At(g.dependencies, x) && y !in g.targets)
  {
    KeepsAll(g, s, roots);
    var v := ClosureView(g, s, roots);
    assert forall x :: v.Succ(x) == At(g.dependencies, x);
  }

  lemma StuckIs(g: Graph, s: Settings, roots: seq<Address>, syn: seq<Address>)
    requires AreSynthetics(g, s, roots, syn)
    ensures Stuck(g, s, roots) <==> Dangling(g, s, roots) || Dangling(g, s, syn)
  {
    if Stuck(g, s, roots) && !Dangling(g, s, roots) {
      var syn' :| AreSynthetics(g, s, roots, syn') && Dangling(g, s, syn');
      RootOrder(g, s, syn, syn');
      DanglingIs(g, s, syn);
      DanglingIs(g, s, syn');
    }
  }

  /** `_unfiltered_targets`: a fresh computation of the targets in play. */
  method UnfilteredTargets(graph: BuildGraph, s: Settings, roots: seq<Address>) returns (r: Option<seq<Address>>)
    requires graph.Valid()
    ensures r.None? <==> Stuck(graph.Now(), s, roots)
    ensures r.Some? ==> IsListing(graph.Now(), s, roots, r.value)
  {
    var closure := ClosureForTargets(graph, s, roots);
    if closure.None? {
      return None;
    }
    var syn := Synthetics(graph, s, roots, closure.value);
    var more := ClosureForTargets(graph, s, syn);
    StuckIs(graph.Now(), s, roots, syn);
    if more.None? {
      return None;
    }
    assert AreClosures(graph.Now(), s, roots, closure.value, syn, more.value);
    return Some(Update(closure.value, more.value));
  }

  // ---- Settings that give the same answers ----------------------------------------------------

  /** Whether an edge onto a target with this scope and transitivity is followed. */
  predicate Admits(s: Settings, scope: Scope, transitive: bool, fromRoot: bool) {
    InScope(scope, s.excluded, s.included) && !(s.respectIntransitive && !transitive && !fromRoot)
  }

  ghost predicate FilterAlike(s: Settings, s': Settings) {
    forall scope: Scope, transitive, fromRoot ::
      Admits(s, scope, transitive, fromRoot) == Admits(s', scope, transitive, fromRoot)
  }

  function Names(scope: Option<Scope>): set<ScopeName> {
    if scope.None? then {} else scope.value
  }

  /** Every name that is asked for is excluded too, so no dependency is ever followed. */
  predicate Blocks(s: Settings) {
    Names(s.included) != {} && Names(s.included) <= Names(s.excluded)
  }

  /** The settings follow the same dependencies, read off the settings themselves. */
  predicate SameFilter(s: Settings, s': Settings) {
    && Blocks(s) == Blocks(s')
    && (!Blocks(s) ==> Names(s.excluded) == Names(s'.excluded))
    && (!Blocks(s) ==> Names(s.included) - Names(s.excluded) == Names(s'.included) - Names(s'.excluded))
    && (!Blocks(s) ==> s.respectIntransitive == s'.respectIntransitive)
  }

  predicate SameTraversal(s: Settings, s': Settings) {
    s.bfs == s'.bfs && (s.bfs || s.postorder == s'.postorder)
  }

  /** The settings filter alike, and list in the same order unless they follow nothing. */
  predicate Serves(s: Settings, s': Settings) {
    SameFilter(s, s') && (Blocks(s) || SameTraversal(s, s'))
  }

  lemma NothingAdmitted(s: Settings)
    ensures Blocks(s) ==> forall scope: Scope :: !InScope(scope, s.excluded, s.included)
  {
  }

  /** The settings agree on the scopes of one or two names from `U`. */
  predicate AlikeOn(s: Settings, s': Settings, U: set<ScopeName>) {
    forall n, m, transitive, fromRoot :: n in U && m in U ==>
      Admits(s, {n, m}, transitive, fromRoot) == Admits(s', {n, m}, transitive, fromRoot)
  }

  function Mentioned(s: Settings): set<ScopeName> {
    Names(s.excluded) + Names(s.included)
  }

  /** `U` has all names that the settings mention, and one that neither does. */
  ghost predicate Covers(U: set<ScopeName>, s: Settings, s': Settings) {
    && Mentioned(s) + Mentioned(s') <= U
    && exists n :: n in U && n !in Mentioned(s) + Mentioned(s')
  }

  lemma Admitted(s: Settings, s': Settings, U: set<ScopeName>)
    requires !Blocks(s) && Covers(U, s, s')
    ensures exists n :: n in U && n !in Names(s.excluded) && InScope({n, n}, s.excluded, s.included)
  {
    if s.included.None? {
      var n :| n in U && n !in Mentioned(s) + Mentioned(s');
      assert InScope({n, n}, s.excluded, s.included);
    } else {
      var n :| n in Names(s.included) && n !in Names(s.excluded);
      assert InScope({n, n}, s.excluded, s.included);
    }
  }

  lemma AlikeBlocks(s: Settings, s': Settings, U: set<ScopeName>)
    requires AlikeOn(s, s', U) && Covers(U, s, s') && !Blocks(s)
    ensures !Blocks(s')
  {
    Admitted(s, s', U);
    var n :| n in U && n !in Names(s.excluded) && InScope({n, n}, s.excluded, s.included);
    assert Admits(s, {n, n}, true, true) == Admits(s', {n, n}, true, true);
  }

  lemma AlikeExcluded(s: Settings, s': Settings, U: set<ScopeName>, m: ScopeName)
    requires AlikeOn(s, s', U) && Covers(U, s, s') && !Blocks(s) && m in Names(s'.excluded)
    ensures m in Names(s.excluded)
  {
    Admitted(s, s', U);
    var n :| n in U && n !in Names(s.excluded) && InScope({n, n}, s.excluded, s.included);
    assert m in Mentioned(s') && m in U;
    assert Admits(s, {n, m}, true, true) == Admits(s', {n, m}, true, true);
    assert n in {n, m} && m in {n, m};
  }

  lemma AlikeIncluded(s: Settings, s': Settings, U: set<ScopeName>, m: ScopeName)
    requires AlikeOn(s, s', U) && Covers(U, s, s') && m in Names(s'.included) - Names(s'.excluded)
    ensures m in Names(s.included) - Names(s.excluded)
  {
    assert m in Mentioned(s') && m in U;
    assert Admits(s, {m, m}, true, true) == Admits(s', {m, m}, true, true);
    var n :| n in U && n !in Mentioned(s) + Mentioned(s');
    assert Admits(s, {n, n}, true, true) == Admits(s', {n, n}, true, true);
  }

  /** A name longer than all of `names`. */
  method FreshName(names: set<ScopeName>) returns (n: ScopeName)
    ensures n !in names
  {
    n := "x";
    var todo := names;
    while todo != {}
      invariant todo <= names && forall m :: m in names - todo ==> |m| < |n|
    {
      var m :| m in todo;
      if |m| >= |n| {
        n := m + "x";
      }
      todo := todo - {m};
    }
  }

  lemma {:induction false} NamesBounded(names: set<ScopeName>)
    ensures exists n: ScopeName :: forall m :: m in names ==> |m| < |n|
    decreases |names|
  {
    if names == {} {
      assert forall m :: m in names ==> |m| < |"x"|;
    } else {
      var k :| k in names;
      NamesBounded(names - {k});
      var n: ScopeName :| forall m :: m in names - {k} ==> |m| < |n|;
      var longer: ScopeName := n + k;
      assert forall m :: m in names ==> m == k || m in names - {k};
      assert forall m :: m in names ==> |m| < |longer|;
    }
  }

  lemma SomeCover(s: Settings, s': Settings)
    ensures exists U :: Covers(U, s, s')
  {
    var names := Mentioned(s) + Mentioned(s');
    NamesBounded(names);
    var n: ScopeName :| forall m :: m in names ==> |m| < |n|;
    assert n !in names;
    assert Covers(names + {n}, s, s');
  }

  lemma SameInScope(s: Settings, s': Settings, scope: Scope)
    requires SameFilter(s, s') && InScope(scope, s.excluded, s.included)
    ensures InScope(scope, s'.excluded, s'.included)
  {
    if Blocks(s) {
      NothingAdmitted(s);
    } else if Names(s'.included) != {} {
      var m :| m in Names(s'.included) && m !in Names(s'.excluded);
      assert m in Names(s'.included) - Names(s'.excluded);
      assert m in Names(s.included) - Names(s.excluded);
      var n :| n in scope && n in Names(s.included);
      assert n in Names(s.included) - Names(s.excluded);
    }
  }

  lemma AlikeFlags(s: Settings, s': Settings, U: set<ScopeName>)
    requires AlikeOn(s, s', U) && Covers(U, s, s') && !Blocks(s)
    ensures s.respectIntransitive == s'.respectIntransitive
  {
    Admitted(s, s', U);
    var n :| n in U && n !in Names(s.excluded) && InScope({n, n}, s.excluded, s.included);
    assert Admits(s, {n, n}, true, false) == Admits(s', {n, n}, true, false);
    assert Admits(s, {n, n}, false, false) == Admits(s', {n, n}, false, false);
  }

  lemma SameAlike(s: Settings, s': Settings)
    requires SameFilter(s, s')
    ensures FilterAlike(s, s')
  {
    forall scope: Scope, transitive, fromRoot
      ensures Admits(s, scope, transitive, fromRoot) == Admits(s', scope, transitive, fromRoot)
    {
      if InScope(scope, s.excluded, s.included) {
        SameInScope(s, s', scope);
      } else if InScope(scope, s'.excluded, s'.included) {
        SameInScope(s', s, scope);
      }
    }
  }

  /** Whether settings filter the same shows on scopes of one or two names. */
  lemma AlikeSame(s: Settings, s': Settings, U: set<ScopeName>)
    requires Covers(U, s, s')
    ensures AlikeOn(s, s', U) <==> SameFilter(s, s')
  {
    if SameFilter(s, s') {
      SameAlike(s, s');
    } else if AlikeOn(s, s', U) {
      assert AlikeOn(s', s, U) && Covers(U, s', s);
      if !Blocks(s') {
        AlikeBlocks(s', s, U);
      }
      if !Blocks(s) {
        AlikeBlocks(s, s', U);
        forall m
          ensures m in Names(s.excluded) <==> m in Names(s'.excluded)
          ensures m in Names(s.included) - Names(s.excluded) <==> m in Names(s'.included) - Names(s'.excluded)
        {
          if m in Names(s'.excluded) { AlikeExcluded(s, s', U, m); }
          if m in Names(s.excluded) { AlikeExcluded(s', s, U, m); }
          if m in Names(s'.included) - Names(s'.excluded) { AlikeIncluded(s, s', U, m); }
          if m in Names(s.included) - Names(s.excluded) { AlikeIncluded(s', s, U, m); }
        }
        AlikeFlags(s, s', U);
      }
    }
  }

  /** Settings follow the same dependencies in every graph exactly when their filters are the
      same as written. */
  lemma FilterExactly(s: Settings, s': Settings)
    ensures FilterAlike(s, s') <==> SameFilter(s, s')
  {
    if SameFilter(s, s') {
      SameAlike(s, s');
    } else {
      SomeCover(s, s');
      var U :| Covers(U, s, s');
      AlikeSame(s, s', U);
    }
  }

  lemma AlikeEdges(g: Graph, s: Settings, s': Settings, roots: seq<Address>)
    requires FilterAlike(s, s')
    ensures ClosureView(g, s, roots).Edges() == ClosureView(g, s', roots).Edges()
  {
    forall a, b
      ensures (a, b) in ClosureView(g, s, roots).Edges() <==> (a, b) in ClosureView(g, s', roots).Edges()
    {
      ClosureEdge(g, s, roots, a, b);
      ClosureEdge(g, s', roots, a, b);
      if a in g.targets && b in g.targets {
        var t := g.targets[b];
        var fromRoot := g.targets[a].address in roots;
        assert Admits(s, t.scope, t.transitive, fromRoot) == Admits(s', t.scope, t.transitive, fromRoot);
      }
    }
    SameEdges(ClosureView(g, s, roots).Edges(), ClosureView(g, s', roots).Edges());
  }

  lemma AlikeDangling(g: Graph, s: Settings, s': Settings, roots: seq<Address>)
    requires FilterAlike(s, s')
    ensures Dangling(g, s, roots) <==> Dangling(g, s', roots)
  {
    AlikeEdges(g, s, s', roots);
    DanglingIs(g, s, roots);
    DanglingIs(g, s', roots);
  }

  lemma AlikeSynthetics(g: Graph, s: Settings, s': Settings, roots: seq<Address>, syn: seq<Address>)
    requires FilterAlike(s, s')
    ensures AreSynthetics(g, s, roots, syn) <==> AreSynthetics(g, s', roots, syn)
  {
    AlikeEdges(g, s, s', roots);
    assert forall o :: InTargets(g, s, roots, o) <==> InTargets(g, s', roots, o);
  }

  lemma AlikeStuck(g: Graph, s: Settings, s': Settings, roots: seq<Address>)
    requires FilterAlike(s, s') && Stuck(g, s, roots)
    ensures Stuck(g, s', roots)
  {
    AlikeDangling(g, s, s', roots);
    if !Dangling(g, s, roots) {
      var syn :| AreSynthetics(g, s, roots, syn) && Dangling(g, s, syn);
      AlikeSynthetics(g, s, s', roots, syn);
      AlikeDangling(g, s, s', syn);
    }
  }

  lemma RootsInOrder(E: set<(Address, Address)>, roots: seq<Address>, out: seq<Address>)
    requires forall x :: x in out ==> x in roots
    ensures forall i, m :: 0 <= i < |out| && AtDistance(E, roots, m, out[i]) ==> m == 0
  {
    forall i, m | 0 <= i < |out| && AtDistance(E, roots, m, out[i])
      ensures m == 0
    {
      assert AtDistance(E, roots, 0, out[i]);
      DistanceUnique(E, roots, m, 0, out[i]);
    }
  }

  /** Settings that follow nothing have the roots alone in their closure, and any order of them
      will do. */
  lemma BlockedClosure(g: Graph, s: Settings, roots: seq<Address>, out: seq<Address>)
    requires g.Valid() && Blocks(s) && !Dangling(g, s, roots)
    ensures IsClosureOf(g, s, roots, out) <==> NoDup(out) && forall x :: x in out <==> x in roots
  {
    var E := ClosureView(g, s, roots).Edges();
    forall a, b | InTargets(g, s, roots, a)
      ensures (a, b) !in E
    {
      DanglingIs(g, s, roots);
      ClosureEdge(g, s, roots, a, b);
      EdgeMeans(g, a, b);
      NothingAdmitted(s);
    }
    RootsIncluded(g, s, roots);
    forall x | InTargets(g, s, roots, x)
      ensures x in roots
    {
      var r :| r in Elems(roots) && Reach(E, r, x);
      if r != x {
        var c := ReachFirst(E, r, x);
      }
    }
    if forall x :: x in out ==> x in roots {
      RootsInOrder(E, roots, out);
    }
  }

  lemma AlikeClosure(g: Graph, s: Settings, s': Settings, roots: seq<Address>, out: seq<Address>)
    requires g.Valid() && FilterAlike(s, s') && !Dangling(g, s, roots) && !Dangling(g, s', roots)
    requires (Blocks(s) && Blocks(s')) || SameTraversal(s, s')
    ensures IsClosureOf(g, s, roots, out) <==> IsClosureOf(g, s', roots, out)
  {
    if Blocks(s) && Blocks(s') {
      BlockedClosure(g, s, roots, out);
      BlockedClosure(g, s', roots, out);
    } else {
      AlikeEdges(g, s, s', roots);
      assert forall x :: InTargets(g, s, roots, x) <==> InTargets(g, s', roots, x);
    }
  }

  /** A listing for settings that serve others is right for those too. */
  lemma ServedListing(g: Graph, s: Settings, s': Settings, roots: seq<Address>, out: seq<Address>)
    requires g.Valid() && Serves(s, s') && !Stuck(g, s, roots) && IsListing(g, s, roots, out)
    ensures !Stuck(g, s', roots) && IsListing(g, s', roots, out)
  {
    FilterExactly(s, s');
    FilterExactly(s', s);
    if Stuck(g, s', roots) {
      AlikeStuck(g, s', s, roots);
    }
    var closure, syn, more :| AreClosures(g, s, roots, closure, syn, more) && out == Update(closure, more);
    AlikeSynthetics(g, s, s', roots, syn);
    AlikeClosure(g, s, s', roots, closure);
    AlikeClosure(g, s, s', syn, more);
    assert AreClosures(g, s', roots, closure, syn, more);
  }

  // ---- The cache --------------------------------------------------------------------------------

  function Filter(s: seq<Address>, keep: Address -> bool): seq<Address> {
    if s == [] then [] else (if keep(s[0]) then [s[0]] else []) + Filter(s[1..], keep)
  }

  lemma {:induction false} FilterMembers(s: seq<Address>, keep: Address -> bool)
    requires NoDup(s)
    ensures NoDup(Filter(s, keep)) && forall x :: x in Filter(s, keep) <==> x in s && keep(x)
  {
    if s != [] {
      FilterMembers(s[1..], keep);
      assert s == [s[0]] + s[1..];
      assert s[0] !in s[1..];
    }
  }

  lemma BeforeCons(h: Address, t: seq<Address>, x: Address, y: Address)
    ensures Before([h] + t, x, y) <==> (h == x && y in t) || Before(t, x, y)
  {
    var s := [h] + t;
    if Before(s, x, y) {
      var i, j :| 0 <= i < j < |s| && s[i] == x && s[j] == y;
      assert t[j - 1] == y && (i > 0 ==> t[i - 1] == x);
    }
    if h == x && y in t {
      var j :| 0 <= j < |t| && t[j] == y;
      assert s[0] == x && s[j + 1] == y;
    }
    if Before(t, x, y) {
      var i, j :| 0 <= i < j < |t| && t[i] == x && t[j] == y;
      assert s[i + 1] == x && s[j + 1] == y;
    }
  }

  /** Filtering keeps the order. */
  lemma {:induction false} FilterOrder(s: seq<Address>, keep: Address -> bool, x: Address, y: Address)
    requires NoDup(s)
    ensures Before(Filter(s, keep), x, y) <==> Before(s, x, y) && keep(x) && keep(y)
  {
    if s != [] {
      var h, t := s[0], s[1..];
      FilterOrder(t, keep, x, y);
      FilterMembers(t, keep);
      BeforeCons(h, t, x, y);
      assert s == [h] + t;
      if keep(h) {
        BeforeCons(h, Filter(t, keep), x, y);
      } else {
        assert Filter(s, keep) == Filter(t, keep);
      }
    }
  }

  /** `list` is what a fresh computation gives for these keywords. */
  ghost predicate IsAnswer(g: Graph, roots: seq<Address>, kwargs: Kwargs, list: seq<Address>) {
    !Stuck(g, SettingsOf(kwargs), roots) && IsListing(g, SettingsOf(kwargs), roots, list)
  }

  ghost predicate CachedRight(g: Graph, roots: seq<Address>, filled: map<set<string>, Kwargs>,
                              entries: map<set<string>, seq<Address>>) {
    forall names :: names in entries ==> names in filled && IsAnswer(g, roots, filled[names], entries[names])
  }

  class Context {
    const graph: BuildGraph
    const cache: TargetsCache
    var roots: seq<Address>
    // The keywords with whose values each cached list was computed.
    ghost var filled: map<set<string>, Kwargs>

    /** Every cached list is what a fresh computation gives now, for the values it was computed
        with. */
    ghost predicate Valid()
      reads this, graph, cache
    {
      graph.Valid() && cache in graph.callbacks && CachedRight(graph.Now(), roots, filled, cache.entries)
    }

    constructor (graph: BuildGraph, roots: seq<Address>)
      requires graph.Valid()
      modifies graph`callbacks
      ensures Valid() && this.graph == graph && this.roots == roots && fresh(cache) && cache.entries == map[]
      ensures graph.callbacks == old(graph.callbacks) + {cache}
    {
      this.graph, this.roots, filled := graph, roots, map[];
      var c := new TargetsCache();
      cache := c;
      new;
      graph.AddInvalidationCallback(c);
    }

    /** Any change of the graph clears the cache, and so leaves the context right. */
    lemma AfterGraphChange()
      requires graph.Valid() && cache in graph.callbacks && cache.entries == map[]
      ensures Valid()
    {
    }

    method ReplaceTargets(newRoots: seq<Address>)
      requires Valid()
      modifies this`roots, cache
      ensures Valid() && roots == newRoots && cache.entries == map[]
    {
      roots := newRoots;
      cache.Clear();
    }

    /** `add_new_target`: a synthetic target, known to the graph afterwards. */
    method AddNewTarget(t: Target, deps: seq<Address>, origin: Option<Address>) returns (ok: bool)
      requires Valid()
      modifies graph, graph.callbacks
      ensures Valid() && cache.entries == map[]
      ensures ok ==> graph.Now() == old(graph.Now()).WithTarget(t, origin, true).WithDependencies(t.address, deps)
      ensures !ok ==> graph.Now() == old(graph.Now())
    {
      cache.Clear();
      ok := graph.InjectTarget(t, deps, origin, true);
      AfterGraphChange();
    }

    /** The settings an answer is computed with: those of the call that filled the cache. */
    ghost function Used(kwargs: Kwargs): Settings
      reads this, cache
    {
      SettingsOf(if kwargs.Keys in cache.entries && kwargs.Keys in filled then filled[kwargs.Keys] else kwargs)
    }

    /** `r` is a right answer for `s` on the present graph and roots. */
    ghost predicate Answers(s: Settings, keep: Address -> bool, r: Option<seq<Address>>)
      reads this, graph
    {
      && (r.None? <==> Stuck(graph.Now(), s, roots))
      && (r.Some? ==> exists out :: IsListing(graph.Now(), s, roots, out) && r.value == Filter(out, keep))
    }

    method Store(kwargs: Kwargs, list: seq<Address>)
      requires Valid() && IsAnswer(graph.Now(), roots, kwargs, list)
      modifies this`filled, cache
      ensures Valid() && kwargs.Keys in cache.entries && Used(kwargs) == SettingsOf(kwargs)
    {
      ghost var g := graph.Now();
      cache.entries := cache.entries[kwargs.Keys := list];
      filled := filled[kwargs.Keys := kwargs];
      assert graph.Now() == g;
    }

    /** Sees to it that there is a cached list for these keywords. */
    method Fill(kwargs: Kwargs) returns (ok: bool)
      requires Valid()
      modifies this`filled, cache
      ensures Valid() && ok == (kwargs.Keys in cache.entries)
      ensures ok ==> Used(kwargs) == old(Used(kwargs))
      ensures !ok ==> old(Used(kwargs)) == SettingsOf(kwargs) && Stuck(graph.Now(), SettingsOf(kwargs), roots)
      ensures old(kwargs.Keys in cache.entries) ==> cache.entries == old(cache.entries)
    {
      if kwargs.Keys in cache.entries {
        return true;
      }
      var list := UnfilteredTargets(graph, SettingsOf(kwargs), roots);
      if list.None? {
        return false;
      }
      Store(kwargs, list.value);
      return true;
    }

    /** What a cached list is an answer to. */
    lemma CachedAnswers(kwargs: Kwargs, keep: Address -> bool)
      requires Valid() && kwargs.Keys in cache.entries
      ensures var r := Some(Filter(cache.entries[kwargs.Keys], keep));
              && Answers(Used(kwargs), keep, r)
              && (Serves(Used(kwargs), SettingsOf(kwargs)) ==> Answers(SettingsOf(kwargs), keep, r))
    {
      assert IsAnswer(graph.Now(), roots, filled[kwargs.Keys], cache.entries[kwargs.Keys]);
      if Serves(Used(kwargs), SettingsOf(kwargs)) {
        ServedListing(graph.Now(), Used(kwargs), SettingsOf(kwargs), roots, cache.entries[kwargs.Keys]);
      }
    }

    /** `targets`: the answer is right for the values that filled the cache. It is right for the
        values of this call too if the former serve the latter. */
    method Targets(kwargs: Kwargs, keep: Address -> bool) returns (r: Option<seq<Address>>)
      requires Valid()
      modifies this`filled, cache
      ensures Valid()
      ensures Answers(old(Used(kwargs)), keep, r)
      ensures Serves(old(Used(kwargs)), SettingsOf(kwargs)) ==> Answers(SettingsOf(kwargs), keep, r)
      ensures r.Some? ==> Used(kwargs) == old(Used(kwargs)) && kwargs.Keys in cache.entries
      ensures r.Some? ==> r.value == Filter(cache.entries[kwargs.Keys], keep)
      ensures old(kwargs.Keys in cache.entries) ==> cache.entries == old(cache.entries)
    {
      var ok := Fill(kwargs);
      if !ok {
        return None;
      }
      CachedAnswers(kwargs, keep);
      return Some(Filter(cache.entries[kwargs.Keys], keep));
    }

    /** A right answer has exactly the targets in play that satisfy `keep`, each once. */
    lemma AnswerMembers(s: Settings, keep: Address -> bool, r: Option<seq<Address>>)
      requires graph.Valid() && Answers(s, keep, r) && r.Some?
      ensures NoDup(r.value) && forall x :: x in r.value <==> InPlay(graph.Now(), s, roots, x) && keep(x)
    {
      var out :| IsListing(graph.Now(), s, roots, out) && r.value == Filter(out, keep);
      ListingMembers(graph.Now(), s, roots, out);
      FilterMembers(out, keep);
    }
  }
}
