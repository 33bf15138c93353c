/** The depth-first walk of src/python/pants/build_graph/build_graph.py, preorder or postorder,
    filtered by a predicate on vertices and a predicate on edges, over any graph that has its
    edges in order. */
module Walks {
  import opened Wrappers
  import opened Graphs

  /** What a walk sees: the known vertices, the ordered successors, and the filters. */
  datatype View<!V> = View(known: set<V>, succ: map<V, seq<V>>, keep: V -> bool, follow: (V, V) -> bool) {
    function Succ(a: V): seq<V> {
      At(succ, a)
    }

    /** The edges a walk may take: out of a kept vertex, along an allowed edge. */
    ghost function Edges(): set<(V, V)> {
      set a, b | a in succ && b in succ[a] && keep(a) && follow(a, b) :: (a, b)
    }
  }

  lemma ViewEdge<V(!new)>(v: View<V>, a: V, b: V)
    ensures (a, b) in v.Edges() <==> b in v.Succ(a) && v.keep(a) && v.follow(a, b)
  {
  }

  ghost predicate Reached<V(!new)>(v: View<V>, roots: seq<V>, x: V) {
    ReachFrom(v.Edges(), Elems(roots), x)
  }

  /** What a walk should work: the reached vertices that are kept. */
  ghost predicate InClosure<V(!new)>(v: View<V>, roots: seq<V>, x: V) {
    v.keep(x) && Reached(v, roots, x)
  }

  /** Some root, or some successor of a vertex of the closure, is unknown. */
  ghost predicate Broken<V(!new)>(v: View<V>, roots: seq<V>) {
    || (exists r :: r in roots && r !in v.known)
    || (exists x, y :: InClosure(v, roots, x) && y in v.Succ(x) && y !in v.known)
  }

  ghost predicate IsClosure<V(!new)>(v: View<V>, roots: seq<V>, out: seq<V>) {
    NoDup(out) && forall x :: x in out <==> InClosure(v, roots, x)
  }

  /** Worked vertices come after the kept vertices they have an edge to, except those that
      lead back to them. */
  ghost predicate ChildrenFirst<V(!new)>(v: View<V>, out: seq<V>) {
    forall x, y :: x in out && (x, y) in v.Edges() && v.keep(y) ==> Before(out, y, x) || Reach(v.Edges(), y, x)
  }

  ghost predicate HasEarlierParent<V(!new)>(v: View<V>, out: seq<V>, x: V) {
    exists p :: (p, x) in v.Edges() && Before(out, p, x)
  }

  /** Worked vertices that are not roots come after some vertex with an edge to them. */
  ghost predicate ParentsFirst<V(!new)>(v: View<V>, roots: set<V>, out: seq<V>) {
    forall x :: x in out ==> x in roots || HasEarlierParent(v, out, x)
  }

  /** The vertex at `j` has an edge from one listed at `i` or after it. */
  ghost predicate HasParentFrom<V(!new)>(E: set<(V, V)>, out: seq<V>, i: nat, j: nat)
    requires i <= j < |out|
  {
    exists d :: i <= d < j && (out[d], out[j]) in E
  }

  /** A listing goes in depth: while a vertex has an edge to one not listed yet, everything
      listed after it has an edge from it or from something listed after it. */
  ghost predicate DepthOrdered<V(!new)>(E: set<(V, V)>, out: seq<V>) {
    forall i, j, k :: 0 <= i < j < k < |out| && (out[i], out[k]) in E ==> HasParentFrom(E, out, i, j)
  }

  /** What a preorder walk promises of the order: parents first, and depth before breadth. */
  ghost predicate Preorder<V(!new)>(v: View<V>, roots: set<V>, out: seq<V>) {
    ParentsFirst(v, roots, out) && DepthOrdered(v.Edges(), out)
  }

  /** Everything listed after a vertex of `open` has an edge from it or from something listed
      after it. */
  ghost predicate Spine<V(!new)>(E: set<(V, V)>, out: seq<V>, open: set<V>) {
    && (forall x :: x in open ==> x in out)
    && forall i, j :: 0 <= i < j < |out| && out[i] in open ==> HasParentFrom(E, out, i, j)
  }

  /** `a` has an edge from the vertex of `open` that was listed last. */
  ghost predicate Extends<V(!new)>(E: set<(V, V)>, out: seq<V>, open: set<V>, a: V) {
    open == {} || exists p :: p in out && (p, a) in E && forall x :: x in open ==> x == p || Before(out, x, p)
  }

  lemma ParentAppend<V(!new)>(E: set<(V, V)>, out: seq<V>, a: V, i: nat, j: nat)
    requires i <= j < |out| && HasParentFrom(E, out, i, j)
    ensures HasParentFrom(E, out + [a], i, j)
  {
    var d :| i <= d < j && (out[d], out[j]) in E;
    assert (out + [a])[d] == out[d] && (out + [a])[j] == out[j];
  }

  lemma SpineAppend<V(!new)>(E: set<(V, V)>, out: seq<V>, open: set<V>, a: V)
    requires NoDup(out) && a !in out && Spine(E, out, open) && Extends(E, out, open, a)
    ensures Spine(E, out + [a], open + {a})
  {
    var t := out + [a];
    forall i, j | 0 <= i < j < |t| && t[i] in open + {a}
      ensures HasParentFrom(E, t, i, j)
    {
      assert out[i] in open;
      if j < |out| {
        ParentAppend(E, out, a, i, j);
      } else {
        var p :| p in out && (p, a) in E && forall x :: x in open ==> x == p || Before(out, x, p);
        var d :| 0 <= d < |out| && out[d] == p;
        assert i <= d && (t[d], t[j]) in E;
      }
    }
  }

  /** Listing `a` next keeps the order if only open vertices have an edge to it. */
  lemma DepthAppend<V(!new)>(E: set<(V, V)>, out: seq<V>, open: set<V>, a: V)
    requires DepthOrdered(E, out) && Spine(E, out, open) && forall x :: x in out && (x, a) in E ==> x in open
    ensures DepthOrdered(E, out + [a])
  {
    var t := out + [a];
    forall i, j, k | 0 <= i < j < k < |t| && (t[i], t[k]) in E
      ensures HasParentFrom(E, t, i, j)
    {
      assert t[i] == out[i] && t[j] == out[j];
      if k < |out| {
        assert (out[i], out[k]) in E;
      } else {
        assert out[i] in open;
      }
      ParentAppend(E, out, a, i, j);
    }
  }

  lemma BeforeAppend<V(!new)>(s: seq<V>, a: V)
    ensures forall x, y :: Before(s, x, y) ==> Before(s + [a], x, y)
    ensures forall x :: x in s ==> Before(s + [a], x, a)
  {
    var t := s + [a];
    forall x, y | Before(s, x, y)
      ensures Before(t, x, y)
    {
      var i, j :| 0 <= i < j < |s| && s[i] == x && s[j] == y;
      assert t[i] == x && t[j] == y;
    }
    forall x | x in s
      ensures Before(t, x, a)
    {
      var i :| 0 <= i < |s| && s[i] == x;
      assert t[i] == x && t[|s|] == a;
    }
  }

  class Walk<V(==,!new)> {
    const view: View<V>
    const postorder: bool
    var expanded: set<V>
    var out: seq<V>  // the worked vertices, in order

    constructor (view: View<V>, postorder: bool)
      ensures this.view == view && this.postorder == postorder && expanded == {} && out == [] && Valid({})
    {
      this.view, this.postorder, expanded, out := view, postorder, {}, [];
    }

    /** The vertices expanded but not yet worked are those on the recursion stack. */
    ghost predicate Valid(stack: set<V>)
      reads this
    {
      && stack <= expanded <= view.known && NoDup(out)
      && (forall x :: x in out ==> x in expanded && view.keep(x) && x !in stack)
      && (forall x :: x in expanded && view.keep(x) ==> x in out || x in stack)
    }

    ghost predicate SettledAt(x: V)
      reads this
    {
      view.keep(x) ==> forall y :: y in view.Succ(x) ==> y in view.known && ((x, y) in view.Edges() ==> y in expanded)
    }

    /** Vertices expanded since `before` have known successors, and those allowed were
        expanded. */
    ghost predicate Settled(before: set<V>)
      reads this
    {
      forall x :: x in expanded && x !in before ==> SettledAt(x)
    }

    ghost predicate Finished(open: set<V>)
      reads this
    {
      forall x, y :: x in expanded && x !in open && (x, y) in view.Edges() ==> y in expanded
    }

    /** A preorder walk that is expanding the vertices of `open`, and has finished all others. */
    ghost predicate Descending(roots: set<V>, open: set<V>)
      reads this
    {
      Preorder(view, roots, out) && Spine(view.Edges(), out, open) && Finished(open)
    }

    /** What holds between the steps of a walk from `roots`, and what allows it to go on to
        `a`, while the vertices of `stack` (in postorder) or `open` (in preorder) are being
        expanded. */
    ghost predicate Walking(roots: set<V>, stack: set<V>, open: set<V>)
      reads this
    {
      Valid(stack) && if postorder then ChildrenFirst(view, out) else stack == {} && Descending(roots, open)
    }

    ghost predicate MayEnter(roots: set<V>, stack: set<V>, open: set<V>, a: V)
      reads this
    {
      && (forall y :: y in stack ==> Reach(view.Edges(), y, a))
      && (a in roots || postorder || exists p :: p in out && (p, a) in view.Edges())
      && (postorder || Extends(view.Edges(), out, open, a))
    }

    /** Vertex `x`, kept and reached from `a`, has an unknown successor, or `a` is unknown. */
    ghost predicate Missing(a: V) {
      a !in view.known ||
      exists x, y :: Reach(view.Edges(), a, x) && view.keep(x) && y in view.Succ(x) && y !in view.known
    }

    lemma MissingBelow(a: V, b: V)
      requires (a, b) in view.Edges() && Missing(b)
      ensures Missing(a)
    {
      ReachRefl(view.Edges(), a);
      if b in view.known {
        var x, y :| Reach(view.Edges(), b, x) && view.keep(x) && y in view.Succ(x) && y !in view.known;
        ReachCons(view.Edges(), a, b, x);
      } else {
        assert view.keep(a) && b in view.Succ(a);
      }
    }

    lemma ReachBelow(a: V, b: V)
      requires (a, b) in view.Edges()
      ensures forall x :: Reach(view.Edges(), b, x) ==> Reach(view.Edges(), a, x)
    {
      forall x | Reach(view.Edges(), b, x)
        ensures Reach(view.Edges(), a, x)
      {
        ReachCons(view.Edges(), a, b, x);
      }
    }

    /** Works `a` after its successors. */
    method WorkAfter(a: V, ghost roots: set<V>, ghost stack: set<V>)
      requires Valid(stack + {a}) && a !in stack && view.keep(a)
      requires postorder && ChildrenFirst(view, out) && SettledAt(a)
      requires forall y :: y in stack ==> Reach(view.Edges(), y, a)
      modifies this`out
      ensures out == old(out) + [a] && Walking(roots, stack, {})
    {
      ReachRefl(view.Edges(), a);
      BeforeAppend(out, a);
      out := out + [a];
    }

    lemma ParentsAppend(roots: set<V>, a: V)
      requires ParentsFirst(view, roots, out)
      requires a in roots || exists p :: p in out && (p, a) in view.Edges()
      ensures ParentsFirst(view, roots, out + [a])
    {
      var E, t := view.Edges(), out + [a];
      BeforeAppend(out, a);
      forall x | x in t && x !in roots
        ensures HasEarlierParent(view, t, x)
      {
        if x in out {
          var p :| (p, x) in E && Before(out, p, x);
          assert Before(t, p, x);
        } else {
          var p :| p in out && (p, x) in E;
          assert Before(t, p, x);
        }
      }
    }

    /** Works `a` before its successors. */
    method WorkBefore(a: V, ghost roots: set<V>, ghost open: set<V>)
      requires Valid({a}) && !postorder && view.keep(a) && MayEnter(roots, {}, open, a)
      requires Preorder(view, roots, out) && Spine(view.Edges(), out, open)
      requires forall x, y :: x in expanded && x !in open + {a} && (x, y) in view.Edges() ==> y in expanded && y != a
      modifies this`out
      ensures out == old(out) + [a] && Walking(roots, {}, open + {a})
    {
      ghost var E := view.Edges();
      BeforeAppend(out, a);
      SpineAppend(E, out, open, a);
      DepthAppend(E, out, open, a);
      ParentsAppend(roots, a);
      out := out + [a];
    }

    /** The recursive part of the depth-first walk. */
    method Rec(a: V, ghost roots: set<V>, ghost stack: set<V>, ghost open: set<V>) returns (ok: bool)
      requires Walking(roots, stack, open) && MayEnter(roots, stack, open, a)
      modifies this
      ensures old(expanded) <= expanded && old(out) <= out
      ensures forall x :: x in expanded && x !in old(expanded) ==> Reach(view.Edges(), a, x)
      ensures ok ==> Walking(roots, stack, open) && a in expanded && Settled(old(expanded))
      ensures !ok ==> Missing(a)
      decreases view.known - expanded, 0
    {
      ReachRefl(view.Edges(), a);
      if a in expanded {
        return true;
      }
      if a !in view.known {
        return false;
      }
      expanded := expanded + {a};
      if !view.keep(a) {
        return true;
      }
      if postorder {
        ok := Children(a, roots, stack + {a}, {});
        if ok {
          WorkAfter(a, roots, stack);
        }
      } else {
        WorkBefore(a, roots, open);
        ok := Children(a, roots, {}, open + {a});
      }
    }

    static ghost predicate InnermostIn(out: seq<V>, open: set<V>, a: V) {
      a in out && forall x :: x in open ==> x == a || Before(out, x, a)
    }

    /** `a` was worked, and all other open vertices before it. */
    ghost predicate Innermost(open: set<V>, a: V)
      reads this
    {
      InnermostIn(out, open, a)
    }

    static lemma InnermostKept(before: seq<V>, after: seq<V>, open: set<V>, a: V)
      requires before <= after
      ensures InnermostIn(before, open, a) ==> InnermostIn(after, open, a)
    {
      if InnermostIn(before, open, a) {
        forall x | x in open && x != a
          ensures Before(after, x, a)
        {
          var i, j :| 0 <= i < j < |before| && before[i] == x && before[j] == a;
          assert after[i] == x && after[j] == a;
        }
      }
    }

    lemma ReachPast(stack: set<V>, a: V, b: V)
      requires (a, b) in view.Edges() && forall y :: y in stack ==> Reach(view.Edges(), y, a)
      ensures forall y :: y in stack ==> Reach(view.Edges(), y, b)
    {
      forall y | y in stack
        ensures Reach(view.Edges(), y, b)
      {
        ReachSnoc(view.Edges(), y, a, b);
      }
    }

    /** The loop over the successors of a vertex that is being expanded. */
    method Children(a: V, ghost roots: set<V>, ghost stack: set<V>, ghost open: set<V>) returns (ok: bool)
      requires Walking(roots, stack, open) && a in expanded && view.keep(a) && (!postorder ==> Innermost(open, a))
      requires forall y :: y in stack ==> Reach(view.Edges(), y, a)
      modifies this
      ensures old(expanded) <= expanded && old(out) <= out
      ensures forall x :: x in expanded && x !in old(expanded) ==> Reach(view.Edges(), a, x)
      ensures ok ==> Walking(roots, stack, open) && Settled(old(expanded)) && SettledAt(a)
      ensures !ok ==> Missing(a)
      decreases view.known - expanded, 1
    {
      ghost var E := view.Edges();
      var deps := view.Succ(a);
      for i := 0 to |deps|
        invariant Walking(roots, stack, open) && old(expanded) <= expanded && old(out) <= out
        invariant forall x :: x in expanded && x !in old(expanded) ==> Reach(E, a, x)
        invariant Settled(old(expanded)) && (!postorder ==> Innermost(open, a))
        invariant forall y :: y in deps[..i] ==> y in view.known && ((a, y) in E ==> y in expanded)
      {
        var b := deps[i];
        assert deps[..i + 1] == deps[..i] + [b];
        if b in expanded {
          continue;
        }
        if b !in view.known {
          ReachRefl(E, a);
          return false;
        }
        if view.follow(a, b) {
          ReachBelow(a, b);
          ReachPast(stack, a, b);
          ghost var before := out;
          ok := Rec(b, roots, stack, open);
          InnermostKept(before, out, open, a);
          if !ok {
            MissingBelow(a, b);
            return false;
          }
        }
      }
      assert deps[..|deps|] == deps;
      return true;
    }
  }

  ghost predicate SuccessorsKnown<V(!new)>(v: View<V>, S: set<V>) {
    forall x, y :: x in S && v.keep(x) && y in v.Succ(x) ==> y in v.known
  }

  /** A set of known vertices that holds the roots, whose kept members have known successors
      and that is closed under the allowed edges, shows that nothing is missing. */
  lemma NotBroken<V(!new)>(v: View<V>, roots: seq<V>, S: set<V>)
    requires S <= v.known && (forall r :: r in roots ==> r in S) && Closed(v.Edges(), S)
    requires SuccessorsKnown(v, S)
    ensures !Broken(v, roots)
    ensures forall x :: Reached(v, roots, x) ==> x in S
  {
    forall x | Reached(v, roots, x)
      ensures x in S
    {
      var r :| r in Elems(roots) && Reach(v.Edges(), r, x);
      ReachInClosed(v.Edges(), S, r, x);
    }
  }

  /** `walk_transitive_dependency_graph`: fails exactly when it would look up an unknown
      vertex; otherwise works exactly the closure, each vertex once. */
  method DepthFirst<V(==,!new)>(v: View<V>, roots: seq<V>, postorder: bool) returns (r: Option<seq<V>>)
    ensures r.None? <==> Broken(v, roots)
    ensures r.Some? ==> IsClosure(v, roots, r.value)
    ensures r.Some? && postorder ==> ChildrenFirst(v, r.value)
    ensures r.Some? && !postorder ==> Preorder(v, Elems(roots), r.value)
  {
    var walk := new Walk(v, postorder);
    for i := 0 to |roots|
      invariant walk.view == v && walk.postorder == postorder && fresh(walk)
      invariant walk.Walking(Elems(roots), {}, {}) && walk.Settled({})
      invariant forall x :: x in walk.expanded ==> Reached(v, roots, x)
      invariant forall a :: a in roots[..i] ==> a in walk.expanded
    {
      assert roots[..i + 1] == roots[..i] + [roots[i]];
      assert roots[i] in Elems(roots);
      var ok := walk.Rec(roots[i], Elems(roots), {}, {});
      if !ok {
        return None;
      }
    }
    assert roots[..|roots|] == roots;
    NotBroken(v, roots, walk.expanded);
    return Some(walk.out);
  }

  /** On a graph without cycles, the postorder walk works every vertex after all kept
      vertices it has an allowed edge to. */
  lemma PostorderOnAcyclic<V(!new)>(v: View<V>, out: seq<V>)
    requires ChildrenFirst(v, out) && Acyclic(v.Edges())
    ensures forall x, y :: x in out && (x, y) in v.Edges() && v.keep(y) ==> Before(out, y, x)
  {
  }

  lemma {:induction false} NoDupSize<A>(s: seq<A>)
    requires NoDup(s)
    ensures |Elems(s)| == |s|
  {
    if s != [] {
      NoDupSize(s[1..]);
      assert s == [s[0]] + s[1..];
      assert Elems(s) == {s[0]} + Elems(s[1..]);
    }
  }

  /** All walks of a view from the same roots work the same vertices. */
  lemma ClosuresAgree<V(!new)>(v: View<V>, roots: seq<V>, out: seq<V>, out': seq<V>)
    requires IsClosure(v, roots, out) && IsClosure(v, roots, out')
    ensures Elems(out) == Elems(out') && |out| == |out'|
  {
    NoDupSize(out);
    NoDupSize(out');
    assert Elems(out) == Elems(out');
  }
}
