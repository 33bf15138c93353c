/** What a fingerprint tells about the targets it covers, given a digest without collisions
    (src/python/pants/build_graph/target.py). */
module ChangeDetection {
  import opened Wrappers
  import opened Graphs
  import opened Addresses
  import opened BuildGraphs
  import opened Fingerprints

  /** The digest has no collisions. */
  ghost predicate Injective(o: Hashing) {
    forall own, deps, own', deps' :: o.combine(own, deps) == o.combine(own', deps') ==> own == own' && deps == deps'
  }

  lemma CombinedTells(o: Hashing, own: Option<Hash>, deps: multiset<Hash>, own': Option<Hash>, deps': multiset<Hash>)
    requires Injective(o)
    ensures Combined(o, own, deps) == Combined(o, own', deps') <==> own == own' && deps == deps'
  {
  }

  /** Targets have the same fingerprint exactly when their own hashes and those of their
      dependencies are the same. */
  lemma FingerprintTells(g: Graph, a: Address, n: nat, h: Graph, b: Address, m: nat, o: Hashing, s: Strategy)
    requires Injective(o) && Eval(g, o, s, a, n).Some? && Eval(h, o, s, b, m).Some?
    ensures Eval(g, o, s, a, n) == Eval(h, o, s, b, m) <==>
              && o.own(s, g.targets[a]) == o.own(s, h.targets[b])
              && EvalAll(g, o, s, At(g.dependencies, a), n - 1) == EvalAll(h, o, s, At(h.dependencies, b), m - 1)
  {
    CombinedTells(o, o.own(s, g.targets[a]), EvalAll(g, o, s, At(g.dependencies, a), n - 1).value,
                  o.own(s, h.targets[b]), EvalAll(h, o, s, At(h.dependencies, b), m - 1).value);
  }

  /** Likewise for fingerprints that look at direct dependencies only. */
  lemma DirectTells(g: Graph, a: Address, h: Graph, b: Address, o: Hashing, s: Strategy)
    requires Injective(o) && EvalDirect(g, o, s, a).Some? && EvalDirect(h, o, s, b).Some?
    ensures EvalDirect(g, o, s, a) == EvalDirect(h, o, s, b) <==>
              && o.own(s, g.targets[a]) == o.own(s, h.targets[b])
              && OwnHashes(g, o, s, At(g.dependencies, a)) == OwnHashes(h, o, s, At(h.dependencies, b))
  {
    CombinedTells(o, o.own(s, g.targets[a]), OwnHashes(g, o, s, At(g.dependencies, a)).value,
                  o.own(s, h.targets[b]), OwnHashes(h, o, s, At(h.dependencies, b)).value);
  }

  // ---- Everything a fingerprint covers --------------------------------------------------------

  ghost function Owning(o: Hashing, s: Strategy, p: Hash): Target -> bool {
    t => o.own(s, t) == Some(p)
  }

  /** Something without a fingerprint covers no target with a hash of its own. */
  lemma {:induction false} NothingCovered(g: Graph, a: Address, n: nat, o: Hashing, s: Strategy, p: Hash)
    requires Eval(g, o, s, a, n) == Some(None)
    ensures Paths(g, Owning(o, s, p), a, n) == 0
    decreases n, 0
  {
    NothingCoveredAll(g, At(g.dependencies, a), n - 1, o, s, p);
  }

  lemma {:induction false} NothingCoveredAll(g: Graph, deps: seq<Address>, n: nat, o: Hashing, s: Strategy, p: Hash)
    requires EvalAll(g, o, s, deps, n) == Some(multiset{})
    ensures PathsAll(g, Owning(o, s, p), deps, n) == 0
    decreases n, 1, |deps|
  {
    if deps != [] {
      var front, last := deps[..|deps| - 1], deps[|deps| - 1];
      var all := EvalAll(g, o, s, front, n).value + Optional(Eval(g, o, s, last, n).value);
      assert forall h :: h in EvalAll(g, o, s, front, n).value ==> h in all;
      assert forall h :: h in Optional(Eval(g, o, s, last, n).value) ==> h in all;
      NothingCoveredAll(g, front, n, o, s, p);
      NothingCovered(g, last, n, o, s, p);
    }
  }

  /** Every hash comes from a dependency. */
  lemma {:induction false} HashFrom(g: Graph, deps: seq<Address>, n: nat, o: Hashing, s: Strategy, v: Hash)
    requires EvalAll(g, o, s, deps, n).Some? && v in EvalAll(g, o, s, deps, n).value
    ensures exists j :: 0 <= j < |deps| && Eval(g, o, s, deps[j], n) == Some(Some(v))
    decreases |deps|
  {
    var front, last := deps[..|deps| - 1], deps[|deps| - 1];
    if Eval(g, o, s, last, n) != Some(Some(v)) {
      assert v in EvalAll(g, o, s, front, n).value;
      HashFrom(g, front, n, o, s, v);
      var j :| 0 <= j < |front| && Eval(g, o, s, front[j], n) == Some(Some(v));
      assert deps[j] == front[j];
    }
  }

  function Drop(deps: seq<Address>, j: nat): seq<Address>
    requires j < |deps|
  {
    deps[..j] + deps[j + 1..]
  }

  lemma DropFront(deps: seq<Address>, j: nat)
    requires j < |deps|
    ensures var front, last := deps[..|deps| - 1], deps[|deps| - 1];
            Drop(deps, j) == if j < |front| then Drop(front, j) + [last] else front
  {
  }

  lemma HashesSnoc(g: Graph, front: seq<Address>, last: Address, n: nat, o: Hashing, s: Strategy)
    ensures EvalAll(g, o, s, front + [last], n) ==
              var hs, v := EvalAll(g, o, s, front, n), Eval(g, o, s, last, n);
              if hs.None? || v.None? then None else Some(hs.value + Optional(v.value))
  {
    assert (front + [last])[..|front|] == front;
  }

  /** What one dependency contributes to the hashes. */
  lemma {:induction false} HashDropped(g: Graph, deps: seq<Address>, j: nat, n: nat, o: Hashing, s: Strategy)
    requires j < |deps| && EvalAll(g, o, s, deps, n).Some?
    ensures EvalAll(g, o, s, Drop(deps, j), n).Some? && Eval(g, o, s, deps[j], n).Some?
    ensures EvalAll(g, o, s, deps, n).value ==
              EvalAll(g, o, s, Drop(deps, j), n).value + Optional(Eval(g, o, s, deps[j], n).value)
    decreases |deps|
  {
    var front, last := deps[..|deps| - 1], deps[|deps| - 1];
    DropFront(deps, j);
    if j < |front| {
      HashDropped(g, front, j, n, o, s);
      HashesSnoc(g, Drop(front, j), last, n, o, s);
    }
  }

  lemma PathsSnoc(g: Graph, kind: Target -> bool, front: seq<Address>, last: Address, n: nat)
    ensures PathsAll(g, kind, front + [last], n) == PathsAll(g, kind, front, n) + Paths(g, kind, last, n)
  {
    assert (front + [last])[..|front|] == front;
  }

  lemma {:induction false} PathsDropped(g: Graph, kind: Target -> bool, deps: seq<Address>, j: nat, n: nat)
    requires j < |deps|
    ensures PathsAll(g, kind, deps, n) == PathsAll(g, kind, Drop(deps, j), n) + Paths(g, kind, deps[j], n)
    decreases |deps|
  {
    var front, last := deps[..|deps| - 1], deps[|deps| - 1];
    DropFront(deps, j);
    if j < |front| {
      PathsDropped(g, kind, front, j, n);
      PathsSnoc(g, kind, Drop(front, j), last, n);
    }
  }

  lemma CoverageStep(g: Graph, a: Address, n: nat, h: Graph, b: Address, m: nat, kind: Target -> bool)
    requires n > 0 && m > 0 && a in g.targets && b in h.targets && kind(g.targets[a]) == kind(h.targets[b])
    requires PathsAll(g, kind, At(g.dependencies, a), n - 1) == PathsAll(h, kind, At(h.dependencies, b), m - 1)
    ensures Paths(g, kind, a, n) == Paths(h, kind, b, m)
  {
  }

  lemma HashSkipped(g: Graph, deps: seq<Address>, j: nat, n: nat, o: Hashing, s: Strategy)
    requires j < |deps| && EvalAll(g, o, s, deps, n).Some? && Eval(g, o, s, deps[j], n) == Some(None)
    ensures EvalAll(g, o, s, Drop(deps, j), n) == EvalAll(g, o, s, deps, n)
  {
    HashDropped(g, deps, j, n, o, s);
    var rest := EvalAll(g, o, s, Drop(deps, j), n).value;
    assert rest + multiset{} == rest;
  }

  lemma SameLeft(x: multiset<Hash>, y: multiset<Hash>, z: multiset<Hash>)
    requires x + z == y + z
    ensures x == y
  {
    assert x == (x + z) - z && y == (y + z) - z;
  }

  /** A dependency on one side has one with the same fingerprint on the other, and the rest
      have the same hashes. */
  lemma HashMatched(g: Graph, deps: seq<Address>, n: nat, h: Graph, deps': seq<Address>, m: nat,
                    o: Hashing, s: Strategy) returns (j: nat)
    requires deps != [] && EvalAll(g, o, s, deps, n).Some? && EvalAll(g, o, s, deps, n) == EvalAll(h, o, s, deps', m)
    requires Eval(g, o, s, deps[0], n).Some? && Eval(g, o, s, deps[0], n).value.Some?
    ensures j < |deps'| && Eval(h, o, s, deps'[j], m) == Eval(g, o, s, deps[0], n)
    ensures EvalAll(g, o, s, Drop(deps, 0), n).Some?
    ensures EvalAll(g, o, s, Drop(deps, 0), n) == EvalAll(h, o, s, Drop(deps', j), m)
  {
    var v := Eval(g, o, s, deps[0], n).value;
    HashDropped(g, deps, 0, n, o, s);
    assert v.value in EvalAll(g, o, s, deps, n).value;
    HashFrom(h, deps', m, o, s, v.value);
    j :| 0 <= j < |deps'| && Eval(h, o, s, deps'[j], m) == Some(v);
    HashDropped(h, deps', j, m, o, s);
    SameLeft(EvalAll(g, o, s, Drop(deps, 0), n).value, EvalAll(h, o, s, Drop(deps', j), m).value, Optional(v));
  }

  /** Targets with the same fingerprint, in the same graph or in two, lead by equally many
      dependency paths to targets with any given hash of their own. */
  lemma {:induction false} SameCoverage(g: Graph, a: Address, n: nat, h: Graph, b: Address, m: nat,
                                        o: Hashing, s: Strategy, p: Hash)
    requires Injective(o) && Eval(g, o, s, a, n).Some? && Eval(g, o, s, a, n) == Eval(h, o, s, b, m)
    ensures Paths(g, Owning(o, s, p), a, n) == Paths(h, Owning(o, s, p), b, m)
    decreases n, 0
  {
    FingerprintTells(g, a, n, h, b, m, o, s);
    SameCoverageAll(g, At(g.dependencies, a), n - 1, h, At(h.dependencies, b), m - 1, o, s, p);
    CoverageStep(g, a, n, h, b, m, Owning(o, s, p));
  }

  lemma {:induction false} SameCoverageAll(g: Graph, deps: seq<Address>, n: nat, h: Graph, deps': seq<Address>,
                                           m: nat, o: Hashing, s: Strategy, p: Hash)
    requires Injective(o) && EvalAll(g, o, s, deps, n).Some?
    requires EvalAll(g, o, s, deps, n) == EvalAll(h, o, s, deps', m)
    ensures PathsAll(g, Owning(o, s, p), deps, n) == PathsAll(h, Owning(o, s, p), deps', m)
    decreases n, 1, |deps|
  {
    if deps == [] {
      NothingCoveredAll(h, deps', m, o, s, p);
    } else {
      HashDropped(g, deps, 0, n, o, s);
      PathsDropped(g, Owning(o, s, p), deps, 0, n);
      if Eval(g, o, s, deps[0], n).value.None? {
        NothingCovered(g, deps[0], n, o, s, p);
        HashSkipped(g, deps, 0, n, o, s);
        SameCoverageAll(g, Drop(deps, 0), n, h, deps', m, o, s, p);
      } else {
        var j := HashMatched(g, deps, n, h, deps', m, o, s);
        PathsDropped(h, Owning(o, s, p), deps', j, m);
        SameCoverageAll(g, Drop(deps, 0), n, h, Drop(deps', j), m, o, s, p);
        SameCoverage(g, deps[0], n, h, deps'[j], m, o, s, p);
      }
    }
  }

  // ---- A target that changed ------------------------------------------------------------------

  /** The graphs differ in one target's own hash only. */
  ghost predicate OneChanged(g: Graph, h: Graph, o: Hashing, s: Strategy, x: Address) {
    && h.dependencies == g.dependencies && h.targets.Keys == g.targets.Keys && x in g.targets
    && o.own(s, g.targets[x]) != o.own(s, h.targets[x])
    && forall y :: y in g.targets && y != x ==> o.own(s, g.targets[y]) == o.own(s, h.targets[y])
  }

  /** The changed target's old hash is met less often. */
  lemma {:induction false} PathsDrop(g: Graph, h: Graph, o: Hashing, s: Strategy, x: Address, p: Hash,
                                     a: Address, n: nat)
    requires OneChanged(g, h, o, s, x) && o.own(s, g.targets[x]) == Some(p) && Eval(g, o, s, a, n).Some?
    ensures Paths(h, Owning(o, s, p), a, n) <= Paths(g, Owning(o, s, p), a, n)
    ensures Reach(g.Edges(), a, x) ==> Paths(h, Owning(o, s, p), a, n) < Paths(g, Owning(o, s, p), a, n)
    decreases n, 0
  {
    if a != x && Reach(g.Edges(), a, x) {
      var b := ReachFirst(g.Edges(), a, x);
      EdgeMeans(g, a, b);
    }
    PathsAllDrop(g, h, o, s, x, p, At(g.dependencies, a), n - 1);
  }

  lemma {:induction false} PathsAllDrop(g: Graph, h: Graph, o: Hashing, s: Strategy, x: Address, p: Hash,
                                        deps: seq<Address>, n: nat)
    requires OneChanged(g, h, o, s, x) && o.own(s, g.targets[x]) == Some(p) && EvalAll(g, o, s, deps, n).Some?
    ensures PathsAll(h, Owning(o, s, p), deps, n) <= PathsAll(g, Owning(o, s, p), deps, n)
    ensures (exists b :: b in deps && Reach(g.Edges(), b, x)) ==>
              PathsAll(h, Owning(o, s, p), deps, n) < PathsAll(g, Owning(o, s, p), deps, n)
    decreases n, 1, |deps|
  {
    if deps != [] {
      var front, last := deps[..|deps| - 1], deps[|deps| - 1];
      assert deps == front + [last];
      PathsAllDrop(g, h, o, s, x, p, front, n);
      PathsDrop(g, h, o, s, x, p, last, n);
    }
  }

  lemma LostHashShows(g: Graph, h: Graph, o: Hashing, s: Strategy, x: Address, a: Address, n: nat, m: nat)
    requires Injective(o) && OneChanged(g, h, o, s, x) && o.own(s, g.targets[x]).Some? && Reach(g.Edges(), a, x)
    requires Eval(g, o, s, a, n).Some? && Eval(h, o, s, a, m).Some?
    ensures Eval(g, o, s, a, n) != Eval(h, o, s, a, m)
  {
    var p, k := o.own(s, g.targets[x]).value, if n < m then m else n;
    EvalMono(g, o, s, a, n, k);
    EvalMono(h, o, s, a, m, k);
    PathsDrop(g, h, o, s, x, p, a, k);
    if Eval(g, o, s, a, k) == Eval(h, o, s, a, k) {
      SameCoverage(g, a, k, h, a, k, o, s, p);
    }
  }

  /** A change of any one target's own hash changes the fingerprint of everything that leads to
      it. */
  lemma ChangeShows(g: Graph, h: Graph, o: Hashing, s: Strategy, x: Address, a: Address, v: Option<Hash>)
    requires Injective(o) && OneChanged(g, h, o, s, x) && Reach(g.Edges(), a, x) && Computes(g, o, s, a, v)
    ensures !Computes(h, o, s, a, v)
  {
    if Computes(h, o, s, a, v) {
      var n: nat :| Eval(g, o, s, a, n) == Some(v);
      var m: nat :| Eval(h, o, s, a, m) == Some(v);
      if o.own(s, g.targets[x]).Some? {
        LostHashShows(g, h, o, s, x, a, n, m);
      } else {
        assert h.Edges() == g.Edges();
        LostHashShows(h, g, o, s, x, a, m, n);
      }
    }
  }
}
