/** Finite directed graphs as sets of edges: paths, reachability, cycles, and a rank that strictly
    decreases along the edges of an acyclic graph. Then sequences as listings of vertices: what
    comes before what, listings without duplicates, and orders that go with the edges. All of it
    is generic in the type of the vertices. */
module Graphs {

  /** Consecutive entries of `p` are edges. */
  ghost predicate IsPath<A>(E: set<(A, A)>, p: seq<A>) {
    |p| > 0 && forall i, j :: 0 <= i < j < |p| && j == i + 1 ==> (p[i], p[j]) in E
  }

  ghost predicate Connects<A>(E: set<(A, A)>, p: seq<A>, a: A, b: A) {
    IsPath(E, p) && p[0] == a && p[|p| - 1] == b
  }

  /** `b` is reached from `a` by zero or more edges. */
  ghost predicate Reach<A(!new)>(E: set<(A, A)>, a: A, b: A) {
    exists p :: Connects(E, p, a, b)
  }

  ghost predicate ReachFrom<A(!new)>(E: set<(A, A)>, roots: set<A>, b: A) {
    exists r :: r in roots && Reach(E, r, b)
  }

  /** A closed walk with at least one edge, its first entry repeated at the end. */
  ghost predicate IsCycle<A>(E: set<(A, A)>, c: seq<A>) {
    |c| >= 2 && IsPath(E, c) && c[0] == c[|c| - 1]
  }

  ghost predicate Acyclic<A(!new)>(E: set<(A, A)>) {
    forall a, b :: (a, b) in E ==> !Reach(E, b, a)
  }

  ghost predicate Closed<A(!new)>(E: set<(A, A)>, S: set<A>) {
    forall a, b :: (a, b) in E && a in S ==> b in S
  }

  lemma ReachRefl<A(!new)>(E: set<(A, A)>, a: A)
    ensures Reach(E, a, a)
  {
    assert Connects(E, [a], a, a);
  }

  lemma ReachEdge<A(!new)>(E: set<(A, A)>, a: A, b: A)
    requires (a, b) in E
    ensures Reach(E, a, b)
  {
    assert Connects(E, [a, b], a, b);
  }

  lemma ReachTrans<A(!new)>(E: set<(A, A)>, a: A, b: A, c: A)
    requires Reach(E, a, b) && Reach(E, b, c)
    ensures Reach(E, a, c)
  {
    var p :| Connects(E, p, a, b);
    var q :| Connects(E, q, b, c);
    var r := p + q[1..];
    forall i, j | 0 <= i < j < |r| && j == i + 1
      ensures (r[i], r[j]) in E
    {
      if j >= |p| {
        assert r[j] == q[j - |p| + 1];
        assert r[i] == q[i - |p| + 1];
      }
    }
    assert Connects(E, r, a, c);
  }

  /** Reaching along one more edge at the end. */
  lemma ReachSnoc<A(!new)>(E: set<(A, A)>, a: A, b: A, c: A)
    requires Reach(E, a, b) && (b, c) in E
    ensures Reach(E, a, c)
  {
    ReachEdge(E, b, c);
    ReachTrans(E, a, b, c);
  }

  lemma ReachCons<A(!new)>(E: set<(A, A)>, a: A, b: A, c: A)
    requires (a, b) in E && Reach(E, b, c)
    ensures Reach(E, a, c)
  {
    ReachEdge(E, a, b);
    ReachTrans(E, a, b, c);
  }

  lemma ReachMono<A(!new)>(E: set<(A, A)>, F: set<(A, A)>, a: A, b: A)
    requires E <= F && Reach(E, a, b)
    ensures Reach(F, a, b)
  {
    var p :| Connects(E, p, a, b);
    assert Connects(F, p, a, b);
  }

  /** A non-trivial reach starts with an edge. */
  lemma ReachFirst<A(!new)>(E: set<(A, A)>, a: A, b: A) returns (c: A)
    requires Reach(E, a, b) && a != b
    ensures (a, c) in E && Reach(E, c, b)
  {
    var p :| Connects(E, p, a, b);
    c := p[1];
    assert Connects(E, p[1..], c, b);
  }

  lemma ReachLast<A(!new)>(E: set<(A, A)>, a: A, b: A) returns (c: A)
    requires Reach(E, a, b) && a != b
    ensures Reach(E, a, c) && (c, b) in E
  {
    var p :| Connects(E, p, a, b);
    c := p[|p| - 2];
    assert Connects(E, p[..|p| - 1], a, c);
  }

  /** A set closed under the edges holds everything reached from its members. */
  lemma {:induction false} PathInClosed<A(!new)>(E: set<(A, A)>, S: set<A>, p: seq<A>)
    requires IsPath(E, p) && Closed(E, S) && p[0] in S
    ensures forall x :: x in p ==> x in S
    decreases |p|
  {
    if |p| > 1 {
      assert (p[0], p[1]) in E;
      PathInClosed(E, S, p[1..]);
      assert p == [p[0]] + p[1..];
    }
  }

  lemma ReachInClosed<A(!new)>(E: set<(A, A)>, S: set<A>, a: A, b: A)
    requires Closed(E, S) && a in S && Reach(E, a, b)
    ensures b in S
  {
    var p :| Connects(E, p, a, b);
    PathInClosed(E, S, p);
  }

  /** Two graphs with the same edges out of a closed set reach the same from it. */
  lemma PathAgree<A(!new)>(E: set<(A, A)>, F: set<(A, A)>, S: set<A>, p: seq<A>)
    requires Closed(E, S) && forall a, b :: a in S && (a, b) in E ==> (a, b) in F
    requires IsPath(E, p) && p[0] in S
    ensures IsPath(F, p)
  {
    PathInClosed(E, S, p);
  }

  lemma ReachAgree<A(!new)>(E: set<(A, A)>, F: set<(A, A)>, S: set<A>, a: A, b: A)
    requires Closed(E, S) && forall x, y :: x in S && (x, y) in E ==> (x, y) in F
    requires a in S && Reach(E, a, b)
    ensures Reach(F, a, b)
  {
    var p :| Connects(E, p, a, b);
    PathAgree(E, F, S, p);
    assert Connects(F, p, a, b);
  }

  /** The edge-wise definition of acyclicity says that no cycle exists. */
  lemma AcyclicMeansNoCycle<A(!new)>(E: set<(A, A)>)
    ensures Acyclic(E) <==> !exists c :: IsCycle(E, c)
  {
    if exists c :: IsCycle(E, c) {
      var c :| IsCycle(E, c);
      assert (c[0], c[1]) in E;
      assert Connects(E, c[1..], c[1], c[0]);
    }
    if !Acyclic(E) {
      var a, b :| (a, b) in E && Reach(E, b, a);
      var p :| Connects(E, p, b, a);
      assert IsCycle(E, [a] + p);
    }
  }

  ghost function Heads<A>(E: set<(A, A)>): set<A> {
    set e | e in E :: e.1
  }

  ghost function ReachSet<A(!new)>(E: set<(A, A)>, a: A): set<A> {
    set b | b in {a} + Heads(E) && Reach(E, a, b)
  }

  lemma ReachSetExact<A(!new)>(E: set<(A, A)>, a: A, b: A)
    ensures b in ReachSet(E, a) <==> Reach(E, a, b)
  {
    if Reach(E, a, b) && a != b {
      var c := ReachLast(E, a, b);
      assert (c, b) in E;
    }
  }

  ghost function Rank<A(!new)>(E: set<(A, A)>, a: A): nat {
    |ReachSet(E, a)|
  }

  lemma SubsetSize<A>(s: set<A>, t: set<A>)
    requires s <= t
    ensures s != t ==> |s| < |t|
  {
    assert t == s + (t - s);
  }

  /** What a child reaches, its parent reaches too, and in an acyclic graph the
      parent is not among it: the rank decreases along every edge. */
  lemma RankDecreases<A(!new)>(E: set<(A, A)>, a: A, b: A)
    requires (a, b) in E && !Reach(E, b, a)
    ensures Rank(E, b) < Rank(E, a)
  {
    forall x | x in ReachSet(E, b)
      ensures x in ReachSet(E, a)
    {
      ReachCons(E, a, b, x);
      ReachSetExact(E, a, x);
    }
    ReachRefl(E, a);
    assert a in ReachSet(E, a) && a !in ReachSet(E, b);
    SubsetSize(ReachSet(E, b), ReachSet(E, a));
  }

  /** No cycle can be reached from `a`. */
  ghost predicate Ends<A(!new)>(E: set<(A, A)>, a: A) {
    forall b, c :: Reach(E, a, b) && (b, c) in E ==> !Reach(E, c, b)
  }

  lemma EndsBelow<A(!new)>(E: set<(A, A)>, a: A, b: A)
    requires Ends(E, a) && (a, b) in E
    ensures Ends(E, b) && Rank(E, b) < Rank(E, a)
  {
    ReachRefl(E, a);
    RankDecreases(E, a, b);
    forall c, d | Reach(E, b, c) && (c, d) in E
      ensures !Reach(E, d, c)
    {
      ReachCons(E, a, b, c);
    }
  }

  /** `a` is listed before `b`. */
  ghost predicate Before<A>(s: seq<A>, a: A, b: A) {
    exists i, j :: 0 <= i < j < |s| && s[i] == a && s[j] == b
  }

  ghost predicate NoDup<A>(s: seq<A>) {
    forall i, j :: 0 <= i < j < |s| ==> s[i] != s[j]
  }

  lemma NoDupConcat<A>(s: seq<A>, t: seq<A>)
    requires NoDup(s) && NoDup(t) && forall x :: x in s ==> x !in t
    ensures NoDup(s + t)
  {
    forall i, j | 0 <= i < j < |s + t|
      ensures (s + t)[i] != (s + t)[j]
    {
      if i < |s| <= j {
        assert s[i] in s && t[j - |s|] in t;
      }
    }
  }

  /** First position of `x`. */
  function IndexOf<A(==)>(s: seq<A>, x: A): (i: nat)
    requires x in s
    ensures i < |s| && s[i] == x && x !in s[..i]
  {
    if s[0] == x then 0 else
      var k := IndexOf(s[1..], x);
      assert s[..k + 1] == [s[0]] + s[1..][..k];
      k + 1
  }

  lemma BeforeIndices<A>(s: seq<A>, i: nat, j: nat)
    requires NoDup(s) && i < |s| && j < |s|
    ensures Before(s, s[i], s[j]) <==> i < j
  {
  }

  ghost function Elems<A>(s: seq<A>): set<A> {
    set x | x in s
  }

  lemma {:induction false} ForwardPath<A(!new)>(E: set<(A, A)>, s: seq<A>, p: seq<A>, i: nat)
    requires NoDup(s) && forall a, b :: (a, b) in E ==> Before(s, a, b)
    requires IsPath(E, p) && i < |s| && s[i] == p[0]
    ensures exists j :: i <= j < |s| && s[j] == p[|p| - 1] && (|p| > 1 ==> i < j)
    decreases |p|
  {
    if |p| > 1 {
      assert (p[0], p[1]) in E;
      var i', k :| 0 <= i' < k < |s| && s[i'] == p[0] && s[k] == p[1];
      assert i' == i;
      ForwardPath(E, s, p[1..], k);
    }
  }

  /** An enumeration in which every edge goes forward rules out cycles. */
  lemma ForwardOrderAcyclic<A(!new)>(E: set<(A, A)>, s: seq<A>)
    requires NoDup(s) && forall a, b :: (a, b) in E ==> Before(s, a, b)
    ensures Acyclic(E)
  {
    forall a, b | (a, b) in E && Reach(E, b, a)
      ensures false
    {
      var p :| Connects(E, p, b, a);
      var q := [a] + p;
      assert IsPath(E, q);
      var i, j :| 0 <= i < j < |s| && s[i] == a && s[j] == b;
      ForwardPath(E, s, q, i);
    }
  }

  /** In an acyclic graph every non-empty finite set has a member with no edge
      into it from the set: climb from `a` until nothing is above. */
  lemma {:induction false} SourceAbove<A(!new)>(E: set<(A, A)>, S: set<A>, a: A)
    requires Acyclic(E) && a in S
    ensures exists m :: m in S && forall x :: x in S ==> (x, m) !in E
    decreases |S - (set x | x in S && Reach(E, a, x))|
  {
    if b :| b in S && (b, a) in E {
      var above := set x | x in S && Reach(E, a, x);
      var above' := set x | x in S && Reach(E, b, x);
      forall x | x in above
        ensures x in above'
      {
        ReachCons(E, b, a, x);
      }
      ReachRefl(E, b);
      assert b in above' && b !in above;
      SubsetSize(S - above', S - above);
      SourceAbove(E, S, b);
    }
  }

  ghost function Reverse<A(!new)>(E: set<(A, A)>): set<(A, A)> {
    set e | e in E :: (e.1, e.0)
  }

  lemma ReverseEdge<A(!new)>(E: set<(A, A)>, a: A, b: A)
    ensures (a, b) in Reverse(E) <==> (b, a) in E
  {
    if (b, a) in E {
      assert ((b, a).1, (b, a).0) == (a, b);
    }
  }

  lemma {:induction false} ReversePath<A(!new)>(E: set<(A, A)>, p: seq<A>)
    requires IsPath(E, p)
    ensures Reach(Reverse(E), p[|p| - 1], p[0])
    decreases |p|
  {
    if |p| == 1 {
      ReachRefl(Reverse(E), p[0]);
    } else {
      ReversePath(E, p[1..]);
      assert (p[0], p[1]) in E;
      ReverseEdge(E, p[1], p[0]);
      ReachSnoc(Reverse(E), p[|p| - 1], p[1], p[0]);
    }
  }

  lemma ReverseTwice<A(!new)>(E: set<(A, A)>)
    ensures Reverse(Reverse(E)) == E
  {
    forall a, b
      ensures (a, b) in Reverse(Reverse(E)) <==> (a, b) in E
    {
      ReverseEdge(Reverse(E), a, b);
      ReverseEdge(E, b, a);
    }
    assert forall e :: e in Reverse(Reverse(E)) <==> (e.0, e.1) in Reverse(Reverse(E));
  }

  lemma ReverseReach<A(!new)>(E: set<(A, A)>, a: A, b: A)
    ensures Reach(Reverse(E), b, a) <==> Reach(E, a, b)
  {
    if Reach(E, a, b) {
      var p :| Connects(E, p, a, b);
      ReversePath(E, p);
    }
    if Reach(Reverse(E), b, a) {
      var p :| Connects(Reverse(E), p, b, a);
      ReversePath(Reverse(E), p);
      ReverseTwice(E);
    }
  }

  lemma {:induction false} AddEdgePath<A(!new)>(E: set<(A, A)>, a: A, b: A, p: seq<A>)
    requires IsPath(E + {(a, b)}, p)
    ensures var x, y := p[0], p[|p| - 1]; Reach(E, x, y) || (Reach(E, x, a) && Reach(E, b, y))
    decreases |p|
  {
    var x, y := p[0], p[|p| - 1];
    if |p| == 1 {
      ReachRefl(E, x);
    } else {
      var F := E + {(a, b)};
      assert IsPath(F, p[1..]);
      AddEdgePath(E, a, b, p[1..]);
      assert (x, p[1]) in F;
      if (x, p[1]) in E {
        ReachEdge(E, x, p[1]);
        if Reach(E, p[1], y) {
          ReachTrans(E, x, p[1], y);
        } else {
          ReachTrans(E, x, p[1], a);
        }
      } else {
        ReachRefl(E, a);
      }
    }
  }

  /** What an added edge adds to what is reached. */
  lemma AddEdgeReach<A(!new)>(E: set<(A, A)>, a: A, b: A, x: A, y: A)
    ensures Reach(E + {(a, b)}, x, y) <==> Reach(E, x, y) || (Reach(E, x, a) && Reach(E, b, y))
  {
    var F := E + {(a, b)};
    if Reach(E, x, y) {
      ReachMono(E, F, x, y);
    } else if Reach(E, x, a) && Reach(E, b, y) {
      ReachMono(E, F, x, a);
      ReachMono(E, F, b, y);
      ReachSnoc(F, x, a, b);
      ReachTrans(F, x, b, y);
    }
    if Reach(F, x, y) {
      var p :| Connects(F, p, x, y);
      AddEdgePath(E, a, b, p);
    }
  }

  /** Adding an edge keeps a graph acyclic exactly when its head did not reach its tail. */
  lemma AddEdgeAcyclic<A(!new)>(E: set<(A, A)>, a: A, b: A)
    requires Acyclic(E)
    ensures Acyclic(E + {(a, b)}) <==> !Reach(E, b, a)
  {
    var F := E + {(a, b)};
    if Reach(E, b, a) {
      ReachMono(E, F, b, a);
      assert (a, b) in F;
    } else {
      forall x, y | (x, y) in F && Reach(F, y, x)
        ensures false
      {
        AddEdgeReach(E, a, b, y, x);
        if (x, y) in E {
          if !Reach(E, y, x) {
            ReachCons(E, x, y, a);
            ReachTrans(E, b, x, a);
          }
        }
      }
    }
  }

  /** Every vertex of the graph has at most one edge out of it. */
  ghost predicate Functional<A(!new)>(E: set<(A, A)>) {
    forall a, b, c :: (a, b) in E && (a, c) in E ==> b == c
  }

  /** In a functional graph, what one vertex reaches lies on one chain. */
  lemma {:induction false} ChainComparable<A(!new)>(E: set<(A, A)>, p: seq<A>, q: seq<A>)
    requires Functional(E) && IsPath(E, p) && IsPath(E, q) && p[0] == q[0]
    ensures Reach(E, p[|p| - 1], q[|q| - 1]) || Reach(E, q[|q| - 1], p[|p| - 1])
    decreases |p|
  {
    if |p| == 1 {
      assert Connects(E, q, p[0], q[|q| - 1]);
    } else if |q| == 1 {
      assert Connects(E, p, q[0], p[|p| - 1]);
    } else {
      assert (p[0], p[1]) in E && (q[0], q[1]) in E;
      ChainComparable(E, p[1..], q[1..]);
    }
  }
}
