/** What the keywords of a query mean (src/python/pants/goal/context.py,
    src/python/pants/build_graph/target.py). */
module Keywords {
  import opened Wrappers
  import opened Graphs
  import opened Addresses
  import opened Walks
  import opened BreadthFirst
  import opened BuildGraphs
  import opened Closures
  import opened Contexts

  predicate Says(k: Kwargs, name: string, value: Arg) {
    name in k && k[name] == value
  }

  /** A dependency on `d` may be followed: it has no excluded name, one of the included names if
      there are any, and if intransitive dependencies are respected, is transitive or comes from
      a root. */
  ghost predicate Allows(k: Kwargs, fromRoot: bool, d: Target) {
    && (forall X, n :: Says(k, "exclude_scopes", ScopeArg(Some(X))) && n in X ==> n !in d.scope)
    && (forall X :: Says(k, "include_scopes", ScopeArg(Some(X))) ==> exists n :: n in X && n in d.scope)
    && (Says(k, "respect_intransitive", FlagArg(true)) ==> d.transitive || fromRoot)
  }

  lemma AllowsMore(k: Kwargs, fromRoot: bool, more: bool, d: Target)
    ensures Allows(k, fromRoot, d) && (fromRoot ==> more) ==> Allows(k, more, d)
  {
  }

  ghost function Followed(g: Graph, k: Kwargs, roots: seq<Address>): set<(Address, Address)> {
    set e | e in g.Edges() && (e.0 in g.targets && e.1 in g.targets ==> Allows(k, e.0 in roots, g.targets[e.1]))
  }

  lemma FollowMeans(k: Kwargs, roots: seq<Address>, t: Target, d: Target)
    ensures SettingsOf(k).Follow(roots)(t, d) <==> Allows(k, t.address in roots, d)
  {
  }

  /** The closure follows exactly the dependencies that the keywords allow. */
  lemma FollowsAllowed(g: Graph, k: Kwargs, roots: seq<Address>)
    requires g.Valid()
    ensures ClosureView(g, SettingsOf(k), roots).Edges() == Followed(g, k, roots)
  {
    forall a, b
      ensures (a, b) in ClosureView(g, SettingsOf(k), roots).Edges() <==> (a, b) in Followed(g, k, roots)
    {
      ClosureEdge(g, SettingsOf(k), roots, a, b);
      if a in g.targets && b in g.targets {
        FollowMeans(k, roots, g.targets[a], g.targets[b]);
      }
    }
    SameEdges(ClosureView(g, SettingsOf(k), roots).Edges(), Followed(g, k, roots));
  }

  /** The order the keywords ask for: by distance from the roots; dependencies first, unless they
      lead back; or each target after one that depends on it, in depth. */
  ghost predicate Ordered(k: Kwargs, E: set<(Address, Address)>, roots: seq<Address>, out: seq<Address>) {
    if Says(k, "bfs", FlagArg(true)) then
      forall i, j, m, n :: 0 <= i < j < |out| && AtDistance(E, roots, m, out[i]) && AtDistance(E, roots, n, out[j]) ==>
        m <= n
    else if Says(k, "postorder", FlagArg(true)) then
      forall x, y :: x in out && (x, y) in E ==> Before(out, y, x) || Reach(E, y, x)
    else
      && (forall x :: x in out ==> x in roots || exists p :: (p, x) in E && Before(out, p, x))
      && DepthOrdered(E, out)
  }

  /** `out` lists, once and in order, what the keywords let the roots lead to. */
  ghost predicate Lists(g: Graph, k: Kwargs, roots: seq<Address>, out: seq<Address>) {
    var E := Followed(g, k, roots);
    NoDup(out) && (forall x :: x in out <==> ReachFrom(E, Elems(roots), x)) && Ordered(k, E, roots, out)
  }

  lemma ClosureLists(g: Graph, k: Kwargs, roots: seq<Address>, out: seq<Address>)
    requires g.Valid()
    ensures IsClosureOf(g, SettingsOf(k), roots, out) <==> Lists(g, k, roots, out)
  {
    FollowsAllowed(g, k, roots);
    KeepsAll(g, SettingsOf(k), roots);
  }

  /** `syn` lists the synthetic targets that derive from something in `closure`. */
  ghost predicate SyntheticsOf(g: Graph, closure: seq<Address>, syn: seq<Address>) {
    NoDup(syn) && forall x :: x in syn <==> x in g.synthetic && exists o :: IsOrigin(g, x, o) && o in closure
  }

  /** The closure of the roots, the synthetics that derive from it, and their closure, as the
      keywords ask for them. */
  ghost predicate Parts(g: Graph, k: Kwargs, roots: seq<Address>, closure: seq<Address>, syn: seq<Address>,
                        more: seq<Address>) {
    Lists(g, k, roots, closure) && SyntheticsOf(g, closure, syn) && Lists(g, k, syn, more)
  }

  lemma PartsMean(g: Graph, k: Kwargs, roots: seq<Address>, closure: seq<Address>, syn: seq<Address>,
                  more: seq<Address>)
    requires g.Valid()
    ensures AreClosures(g, SettingsOf(k), roots, closure, syn, more) <==> Parts(g, k, roots, closure, syn, more)
  {
    ClosureLists(g, k, roots, closure);
    ClosureLists(g, k, syn, more);
  }

  /** An answer is what the keywords let the roots lead to, in the order they ask for, followed by
      what they let the synthetics lead to, where that is new. */
  lemma ListingMeans(g: Graph, k: Kwargs, roots: seq<Address>, out: seq<Address>)
    requires g.Valid()
    ensures IsListing(g, SettingsOf(k), roots, out) <==>
              exists closure, syn, more :: Parts(g, k, roots, closure, syn, more) && out == Update(closure, more)
  {
    if IsListing(g, SettingsOf(k), roots, out) {
      var closure, syn, more :|
        AreClosures(g, SettingsOf(k), roots, closure, syn, more) && out == Update(closure, more);
      PartsMean(g, k, roots, closure, syn, more);
    }
    if closure, syn, more :| Parts(g, k, roots, closure, syn, more) && out == Update(closure, more) {
      PartsMean(g, k, roots, closure, syn, more);
    }
  }

  /** What is in a closure, but not among its roots, is there by an allowed dependency. */
  lemma EnteredBy(g: Graph, k: Kwargs, roots: seq<Address>, x: Address)
    requires g.Valid() && !Dangling(g, SettingsOf(k), roots) && InTargets(g, SettingsOf(k), roots, x) && x !in roots
    ensures x in g.targets && exists a :: (a, x) in g.Edges() && Allows(k, a in roots, g.targets[x])
  {
    var s := SettingsOf(k);
    var E := ClosureView(g, s, roots).Edges();
    var r :| r in Elems(roots) && Reach(E, r, x);
    var a := ReachLast(E, r, x);
    ClosureEdge(g, s, roots, a, x);
    EdgeMeans(g, a, x);
    DanglingIs(g, s, roots);
    assert InTargets(g, s, roots, a);
    FollowMeans(k, roots, g.targets[a], g.targets[x]);
  }

  /** Every target of an answer is a root, synthetic, or has a dependency on it that the keywords
      allow. */
  lemma AnswerAllowed(g: Graph, k: Kwargs, roots: seq<Address>, out: seq<Address>, x: Address)
    requires g.Valid() && !Stuck(g, SettingsOf(k), roots) && IsListing(g, SettingsOf(k), roots, out)
    requires x in out && x !in roots && x !in g.synthetic
    ensures x in g.targets &&
            exists a :: (a, x) in g.Edges() && Allows(k, a in roots || a in g.synthetic, g.targets[x])
  {
    ListingMembers(g, SettingsOf(k), roots, out);
    if InTargets(g, SettingsOf(k), roots, x) {
      EnteredBy(g, k, roots, x);
      var a :| (a, x) in g.Edges() && Allows(k, a in roots, g.targets[x]);
      AllowsMore(k, a in roots, a in roots || a in g.synthetic, g.targets[x]);
    } else {
      var syn :| AreSynthetics(g, SettingsOf(k), roots, syn) && InTargets(g, SettingsOf(k), syn, x);
      EnteredBy(g, k, syn, x);
      var a :| (a, x) in g.Edges() && Allows(k, a in syn, g.targets[x]);
      AllowsMore(k, a in syn, a in roots || a in g.synthetic, g.targets[x]);
    }
  }
}
