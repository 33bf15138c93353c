/** The breadth-first closure of src/python/pants/build_graph/build_graph.py: a queue of vertices
    with their levels, over any filtered view of a graph. A vertex's level turns out to be its
    shortest distance from the roots. */
module BreadthFirst {
  import opened Wrappers
  import opened Graphs
  import opened Walks

  /** `x` is reached from a root along exactly `n` edges. */
  ghost predicate InSteps<V(!new)>(E: set<(V, V)>, roots: seq<V>, n: nat, x: V) {
    if n == 0 then x in roots else exists a :: InSteps(E, roots, n - 1, a) && (a, x) in E
  }

  /** `n` is the shortest distance of `x` from the roots. */
  ghost predicate AtDistance<V(!new)>(E: set<(V, V)>, roots: seq<V>, n: nat, x: V) {
    InSteps(E, roots, n, x) && forall m: nat :: m < n ==> !InSteps(E, roots, m, x)
  }

  lemma {:induction false} InStepsReach<V(!new)>(E: set<(V, V)>, roots: seq<V>, n: nat, x: V)
    requires InSteps(E, roots, n, x)
    ensures ReachFrom(E, Elems(roots), x)
  {
    if n == 0 {
      ReachRefl(E, x);
      assert x in Elems(roots);
    } else {
      var a :| InSteps(E, roots, n - 1, a) && (a, x) in E;
      InStepsReach(E, roots, n - 1, a);
      var r :| r in Elems(roots) && Reach(E, r, a);
      ReachSnoc(E, r, a, x);
    }
  }

  /** Everything reached is reached in some number of steps. */
  lemma {:induction false} PathInSteps<V(!new)>(E: set<(V, V)>, roots: seq<V>, p: seq<V>)
    requires IsPath(E, p) && p[0] in roots
    ensures InSteps(E, roots, |p| - 1, p[|p| - 1])
    decreases |p|
  {
    if |p| > 1 {
      PathInSteps(E, roots, p[..|p| - 1]);
      assert (p[|p| - 2], p[|p| - 1]) in E;
    }
  }

  lemma {:induction false} Shortest<V(!new)>(E: set<(V, V)>, roots: seq<V>, m: nat, x: V)
    requires InSteps(E, roots, m, x)
    ensures exists n :: AtDistance(E, roots, n, x)
    decreases m
  {
    if k: nat :| k < m && InSteps(E, roots, k, x) {
      Shortest(E, roots, k, x);
    } else {
      assert AtDistance(E, roots, m, x);
    }
  }

  /** Everything reached has a distance. */
  lemma DistanceExists<V(!new)>(E: set<(V, V)>, roots: seq<V>, x: V)
    requires ReachFrom(E, Elems(roots), x)
    ensures exists n :: AtDistance(E, roots, n, x)
  {
    var r :| r in Elems(roots) && Reach(E, r, x);
    var p :| Connects(E, p, r, x);
    PathInSteps(E, roots, p);
    Shortest(E, roots, |p| - 1, x);
  }

  /** `x` waits in the queue at level at most `n`. */
  ghost predicate Queued<V>(queue: seq<(nat, V)>, n: nat, x: V) {
    queue != [] && ((queue[0].0 <= n && queue[0].1 == x) || Queued(queue[1..], n, x))
  }

  lemma {:induction false} QueuedAppend<V>(queue: seq<(nat, V)>, e: (nat, V), n: nat, x: V)
    ensures Queued(queue + [e], n, x) <==> Queued(queue, n, x) || (e.0 <= n && e.1 == x)
  {
    if queue != [] {
      QueuedAppend(queue[1..], e, n, x);
      assert (queue + [e])[1..] == queue[1..] + [e];
    }
  }

  lemma {:induction false} QueuedIndex<V>(queue: seq<(nat, V)>, n: nat, x: V)
    ensures Queued(queue, n, x) <==> exists i :: 0 <= i < |queue| && queue[i].0 <= n && queue[i].1 == x
  {
    if queue != [] {
      QueuedIndex(queue[1..], n, x);
      if i :| 0 <= i < |queue[1..]| && queue[1..][i].0 <= n && queue[1..][i].1 == x {
        assert queue[i + 1] == queue[1..][i];
      }
      if i :| 1 <= i < |queue| && queue[i].0 <= n && queue[i].1 == x {
        assert queue[1..][i - 1] == queue[i];
      }
    }
  }

  /** The expanded vertices with their levels, and the queue. */
  datatype Front<!V> = Front(level: map<V, nat>, queue: seq<(nat, V)>) {
    /** `x` is expanded at level at most `n`, or waits in the queue at such a level. */
    ghost predicate Covers(n: nat, x: V) {
      (x in level && level[x] <= n) || Queued(queue, n, x)
    }

    /** While vertices of level `n` are expanded, nothing was expanded at a later level and
        the queue holds level `n`, then level `n + 1`. */
    ghost predicate Ordered(n: nat) {
      && (forall x :: x in level ==> level[x] <= n)
      && (forall i :: 0 <= i < |queue| ==> n <= queue[i].0 <= n + 1)
      && (forall i, j :: 0 <= i < j < |queue| ==> queue[i].0 <= queue[j].0)
    }

    /** Taking the head off the queue, and expanding it if it was not. */
    ghost function Pop(): Front<V>
      requires |queue| > 0
    {
      Front(if queue[0].1 in level then level else level[queue[0].1 := queue[0].0], queue[1..])
    }

    ghost function Push(n: nat, b: V): Front<V> {
      Front(level, queue + [(n, b)])
    }
  }

  /** Roots and the successors of expanded vertices are covered, except those of `open` that
      are still to be looked at. */
  ghost predicate Complete<V(!new)>(v: View<V>, roots: seq<V>, f: Front<V>, open: set<V>, todo: seq<V>) {
    && (forall r :: r in roots ==> f.Covers(0, r))
    && (forall a, b :: a in f.level && (a, b) in v.Edges() && !(a in open && b in todo) ==> f.Covers(f.level[a] + 1, b))
  }

  ghost predicate Sound<V(!new)>(v: View<V>, roots: seq<V>, f: Front<V>) {
    && (forall x :: x in f.level ==> AtDistance(v.Edges(), roots, f.level[x], x))
    && (forall i :: 0 <= i < |f.queue| ==> InSteps(v.Edges(), roots, f.queue[i].0, f.queue[i].1))
  }

  /** Everything reached in fewer steps than the head of the queue has been expanded. */
  lemma {:induction false} NearExpanded<V(!new)>(v: View<V>, roots: seq<V>, f: Front<V>, n: nat, m: nat, x: V)
    requires Complete(v, roots, f, {}, []) && f.Ordered(n) && |f.queue| > 0
    requires InSteps(v.Edges(), roots, m, x) && m < f.queue[0].0
    ensures x in f.level && f.level[x] <= m
    decreases m
  {
    QueuedIndex(f.queue, m, x);
    if m == 0 {
      assert f.Covers(0, x);
    } else {
      var a :| InSteps(v.Edges(), roots, m - 1, a) && (a, x) in v.Edges();
      NearExpanded(v, roots, f, n, m - 1, a);
      assert f.Covers(f.level[a] + 1, x);
      QueuedIndex(f.queue, f.level[a] + 1, x);
    }
  }

  /** So an unexpanded vertex at the head of the queue is there at its distance. */
  lemma HeadAtDistance<V(!new)>(v: View<V>, roots: seq<V>, f: Front<V>, n: nat)
    requires Complete(v, roots, f, {}, []) && Sound(v, roots, f) && f.Ordered(n) && |f.queue| > 0
    requires f.queue[0].1 !in f.level
    ensures AtDistance(v.Edges(), roots, f.queue[0].0, f.queue[0].1)
  {
    var l, a := f.queue[0].0, f.queue[0].1;
    forall m: nat | m < l && InSteps(v.Edges(), roots, m, a)
      ensures false
    {
      NearExpanded(v, roots, f, n, m, a);
    }
  }

  lemma PopCovers<V(!new)>(f: Front<V>, n: nat, m: nat, x: V)
    requires |f.queue| > 0 && f.Ordered(n) && f.Covers(m, x)
    ensures f.Pop().Covers(m, x)
  {
  }

  lemma PopOrdered<V(!new)>(f: Front<V>, n: nat)
    requires f.Ordered(n) && |f.queue| > 0
    ensures f.Pop().Ordered(f.queue[0].0)
  {
  }

  lemma PopSound<V(!new)>(v: View<V>, roots: seq<V>, f: Front<V>, n: nat)
    requires Complete(v, roots, f, {}, []) && Sound(v, roots, f) && f.Ordered(n) && |f.queue| > 0
    ensures Sound(v, roots, f.Pop())
  {
    if f.queue[0].1 !in f.level {
      HeadAtDistance(v, roots, f, n);
    }
  }

  lemma PopComplete<V(!new)>(v: View<V>, roots: seq<V>, f: Front<V>, n: nat)
    requires Complete(v, roots, f, {}, []) && f.Ordered(n) && |f.queue| > 0
    ensures var a := f.queue[0].1; Complete(v, roots, f.Pop(), if a in f.level then {} else {a}, v.Succ(a))
  {
    var g := f.Pop();
    forall r | r in roots
      ensures g.Covers(0, r)
    {
      PopCovers(f, n, 0, r);
    }
    forall x, y | x in f.level && (x, y) in v.Edges()
      ensures g.Covers(g.level[x] + 1, y)
    {
      PopCovers(f, n, f.level[x] + 1, y);
    }
  }

  lemma PopStep<V(!new)>(v: View<V>, roots: seq<V>, f: Front<V>, n: nat)
    requires Complete(v, roots, f, {}, []) && Sound(v, roots, f) && f.Ordered(n) && |f.queue| > 0
    ensures var (l, a) := f.queue[0];
            var open := if a in f.level then {} else {a};
            f.Pop().Ordered(l) && Sound(v, roots, f.Pop()) && Complete(v, roots, f.Pop(), open, v.Succ(a))
  {
    PopOrdered(f, n);
    PopSound(v, roots, f, n);
    PopComplete(v, roots, f, n);
  }

  lemma PushCovers<V(!new)>(f: Front<V>, n: nat, b: V, m: nat, x: V)
    requires f.Covers(m, x) || (m == n && x == b)
    ensures f.Push(n, b).Covers(m, x)
  {
    QueuedAppend(f.queue, (n, b), m, x);
  }

  /** The next successor of `a` is passed over. */
  lemma SkipSuccessor<V(!new)>(v: View<V>, roots: seq<V>, f: Front<V>, n: nat, a: V, todo: seq<V>)
    requires todo != [] && a in f.level && f.level[a] == n && f.Ordered(n)
    requires Complete(v, roots, f, {a}, todo)
    requires todo[0] in f.level || (a, todo[0]) !in v.Edges()
    ensures Complete(v, roots, f, {a}, todo[1..])
  {
    assert todo == [todo[0]] + todo[1..];
  }

  /** The next successor of `a` is put in the queue. */
  lemma PushSuccessor<V(!new)>(v: View<V>, roots: seq<V>, f: Front<V>, n: nat, a: V, todo: seq<V>)
    requires todo != [] && a in f.level && f.level[a] == n
    requires Complete(v, roots, f, {a}, todo)
    ensures Complete(v, roots, f.Push(n + 1, todo[0]), {a}, todo[1..])
  {
    var b := todo[0];
    var g := f.Push(n + 1, b);
    assert todo == [b] + todo[1..];
    forall r | r in roots
      ensures g.Covers(0, r)
    {
      PushCovers(f, n + 1, b, 0, r);
    }
    forall x, y | x in f.level && (x, y) in v.Edges() && !(x == a && y in todo[1..])
      ensures g.Covers(f.level[x] + 1, y)
    {
      PushCovers(f, n + 1, b, f.level[x] + 1, y);
    }
  }

  lemma PushSound<V(!new)>(v: View<V>, roots: seq<V>, f: Front<V>, n: nat, a: V, b: V)
    requires a in f.level && f.level[a] == n && Sound(v, roots, f) && f.Ordered(n) && (a, b) in v.Edges()
    ensures Sound(v, roots, f.Push(n + 1, b)) && f.Push(n + 1, b).Ordered(n)
  {
  }

  /** The worked vertices so far, in the order of their levels. */
  ghost predicate Listed<V(!new)>(v: View<V>, level: map<V, nat>, out: seq<V>) {
    && NoDup(out) && (forall x :: x in out <==> x in level && v.keep(x))
    && (forall i, j :: 0 <= i < j < |out| ==> level[out[i]] <= level[out[j]])
  }

  lemma ListNext<V(!new)>(v: View<V>, level: map<V, nat>, out: seq<V>, n: nat, a: V)
    requires Listed(v, level, out) && a !in level && forall x :: x in level ==> level[x] <= n
    ensures Listed(v, level[a := n], if v.keep(a) then out + [a] else out)
  {
  }

  /** Kept expanded vertices have known successors, but for those of `open` still to do. */
  ghost predicate Known<V(!new)>(v: View<V>, level: map<V, nat>, open: set<V>, todo: seq<V>) {
    level.Keys <= v.known &&
    forall x, y :: x in level && v.keep(x) && y in v.Succ(x) && !(x in open && y in todo) ==> y in v.known
  }

  ghost predicate QueueKnown<V(!new)>(v: View<V>, roots: seq<V>, queue: seq<(nat, V)>) {
    forall e :: e in queue ==> e.1 in roots || e.1 in v.known
  }

  /** The front while the successors `todo` of the vertices in `open` are to be looked at. */
  ghost predicate FrontOk<V(!new)>(v: View<V>, roots: seq<V>, f: Front<V>, n: nat, open: set<V>, todo: seq<V>) {
    f.Ordered(n) && Sound(v, roots, f) && Complete(v, roots, f, open, todo)
  }

  ghost predicate BooksOk<V(!new)>(v: View<V>, roots: seq<V>, f: Front<V>, open: set<V>, todo: seq<V>) {
    Known(v, f.level, open, todo) && QueueKnown(v, roots, f.queue)
  }

  /** What holds while the successors `todo` of `a` are to be looked at. */
  ghost predicate Looking<V(!new)>(v: View<V>, roots: seq<V>, f: Front<V>, n: nat, a: V, todo: seq<V>) {
    && a in f.level && f.level[a] == n && v.keep(a)
    && FrontOk(v, roots, f, n, {a}, todo) && BooksOk(v, roots, f, {a}, todo)
  }

  lemma LookedSkip<V(!new)>(v: View<V>, roots: seq<V>, f: Front<V>, n: nat, a: V, todo: seq<V>)
    requires todo != [] && Looking(v, roots, f, n, a, todo) && todo[0] in v.known
    requires todo[0] in f.level || (a, todo[0]) !in v.Edges()
    ensures Looking(v, roots, f, n, a, todo[1..])
  {
    assert todo == [todo[0]] + todo[1..];
    SkipSuccessor(v, roots, f, n, a, todo);
  }

  lemma LookedPush<V(!new)>(v: View<V>, roots: seq<V>, f: Front<V>, n: nat, a: V, todo: seq<V>)
    requires todo != [] && Looking(v, roots, f, n, a, todo) && todo[0] in v.known && (a, todo[0]) in v.Edges()
    ensures Looking(v, roots, f.Push(n + 1, todo[0]), n, a, todo[1..])
  {
    assert todo == [todo[0]] + todo[1..];
    PushSuccessor(v, roots, f, n, a, todo);
    PushSound(v, roots, f, n, a, todo[0]);
  }

  /** The inner loop: puts the unexpanded allowed successors of `a` in the queue. */
  method Enqueue<V(==,!new)>(v: View<V>, roots: seq<V>, a: V, n: nat, expanded: set<V>,
                             ghost level: map<V, nat>, queue: seq<(nat, V)>)
    returns (ok: bool, q: seq<(nat, V)>)
    requires expanded == level.Keys && a in level && level[a] == n && v.keep(a)
    requires FrontOk(v, roots, Front(level, queue), n, {a}, v.Succ(a))
    requires BooksOk(v, roots, Front(level, queue), {a}, v.Succ(a))
    ensures ok ==> FrontOk(v, roots, Front(level, q), n, {}, []) && BooksOk(v, roots, Front(level, q), {}, [])
    ensures !ok ==> exists y :: y in v.Succ(a) && y !in v.known
  {
    q := queue;
    var deps := v.Succ(a);
    assert deps[0..] == deps;
    for i := 0 to |deps|
      invariant Looking(v, roots, Front(level, q), n, a, deps[i..])
    {
      var b := deps[i];
      assert deps[i..][0] == b && deps[i..][1..] == deps[i + 1..];
      if b !in expanded && b !in v.known {
        return false, q;
      }
      if b !in expanded && v.follow(a, b) {
        LookedPush(v, roots, Front(level, q), n, a, deps[i..]);
        q := q + [(n + 1, b)];
      } else {
        LookedSkip(v, roots, Front(level, q), n, a, deps[i..]);
      }
    }
    return true, q;
  }

  ghost predicate NonDecreasing<V(!new)>(v: View<V>, roots: seq<V>, out: seq<V>) {
    forall i, j, m, n ::
      0 <= i < j < |out| && AtDistance(v.Edges(), roots, m, out[i]) && AtDistance(v.Edges(), roots, n, out[j]) ==>
        m <= n
  }

  lemma DistanceUnique<V(!new)>(E: set<(V, V)>, roots: seq<V>, m: nat, n: nat, x: V)
    requires AtDistance(E, roots, m, x) && AtDistance(E, roots, n, x)
    ensures m == n
  {
  }

  lemma ListedNonDecreasing<V(!new)>(v: View<V>, roots: seq<V>, f: Front<V>, out: seq<V>)
    requires Listed(v, f.level, out) && Sound(v, roots, f)
    ensures NonDecreasing(v, roots, out)
  {
    forall i, j, m, n |
      0 <= i < j < |out| && AtDistance(v.Edges(), roots, m, out[i]) && AtDistance(v.Edges(), roots, n, out[j])
      ensures m <= n
    {
      DistanceUnique(v.Edges(), roots, m, f.level[out[i]], out[i]);
      DistanceUnique(v.Edges(), roots, n, f.level[out[j]], out[j]);
    }
  }

  lemma AllKnown<V(!new)>(v: View<V>, level: map<V, nat>)
    requires Known(v, level, {}, [])
    ensures level.Keys <= v.known && SuccessorsKnown(v, level.Keys)
  {
  }

  lemma DrainedCloses<V(!new)>(v: View<V>, roots: seq<V>, f: Front<V>)
    requires f.queue == [] && Complete(v, roots, f, {}, [])
    ensures Closed(v.Edges(), f.level.Keys) && forall r :: r in roots ==> r in f.level
  {
    assert forall n: nat, x :: f.Covers(n, x) ==> x in f.level;
  }

  lemma SoundReaches<V(!new)>(v: View<V>, roots: seq<V>, f: Front<V>)
    requires Sound(v, roots, f)
    ensures forall x :: x in f.level ==> Reached(v, roots, x)
  {
    forall x | x in f.level
      ensures Reached(v, roots, x)
    {
      InStepsReach(v.Edges(), roots, f.level[x], x);
    }
  }

  lemma DrainedExact<V(!new)>(v: View<V>, roots: seq<V>, S: set<V>)
    requires S <= v.known && SuccessorsKnown(v, S) && Closed(v.Edges(), S) && forall r :: r in roots ==> r in S
    requires forall x :: x in S ==> Reached(v, roots, x)
    ensures !Broken(v, roots) && forall x :: x in S <==> Reached(v, roots, x)
  {
    NotBroken(v, roots, S);
  }

  /** With an empty queue, exactly the reached vertices have been expanded and listed. */
  lemma Drained<V(!new)>(v: View<V>, roots: seq<V>, f: Front<V>, out: seq<V>)
    requires f.queue == [] && Complete(v, roots, f, {}, []) && Sound(v, roots, f) && Known(v, f.level, {}, [])
    requires Listed(v, f.level, out)
    ensures !Broken(v, roots) && IsClosure(v, roots, out) && NonDecreasing(v, roots, out)
  {
    var S := f.level.Keys;
    AllKnown(v, f.level);
    DrainedCloses(v, roots, f);
    SoundReaches(v, roots, f);
    DrainedExact(v, roots, S);
    ListedNonDecreasing(v, roots, f, out);
  }

  lemma InitialFront<V(!new)>(v: View<V>, roots: seq<V>, queue: seq<(nat, V)>)
    requires |queue| == |roots| && forall i :: 0 <= i < |roots| ==> queue[i] == (0, roots[i])
    ensures var f := Front(map[], queue); f.Ordered(0) && Sound(v, roots, f) && Complete(v, roots, f, {}, [])
    ensures QueueKnown(v, roots, queue)
  {
    var f := Front(map[], queue);
    forall r | r in roots
      ensures f.Covers(0, r)
    {
      var i :| 0 <= i < |roots| && roots[i] == r;
      assert queue[i] == (0, r);
      QueuedIndex(queue, 0, r);
    }
  }

  lemma StartBooks<V(!new)>(v: View<V>, roots: seq<V>, f: Front<V>)
    requires BooksOk(v, roots, f, {}, []) && |f.queue| > 0
    ensures f.queue[0].1 in f.level ==> BooksOk(v, roots, f.Pop(), {}, [])
    ensures f.queue[0].1 !in f.level && f.queue[0].1 in v.known ==>
              BooksOk(v, roots, f.Pop(), {f.queue[0].1}, v.Succ(f.queue[0].1))
    ensures f.queue[0].1 !in v.known ==> f.queue[0].1 in roots
  {
    assert f.queue[0] in f.queue;
  }

  lemma Unopened<V(!new)>(v: View<V>, roots: seq<V>, f: Front<V>, todo: seq<V>)
    requires Complete(v, roots, f, {}, todo)
    ensures Complete(v, roots, f, {}, [])
  {
  }

  lemma StartFront<V(!new)>(v: View<V>, roots: seq<V>, f: Front<V>, n: nat)
    requires FrontOk(v, roots, f, n, {}, []) && |f.queue| > 0
    ensures f.queue[0].1 in f.level ==> FrontOk(v, roots, f.Pop(), f.queue[0].0, {}, [])
    ensures f.queue[0].1 !in f.level ==>
              FrontOk(v, roots, f.Pop(), f.queue[0].0, {f.queue[0].1}, v.Succ(f.queue[0].1))
  {
    PopStep(v, roots, f, n);
    if f.queue[0].1 in f.level {
      Unopened(v, roots, f.Pop(), v.Succ(f.queue[0].1));
    }
  }

  lemma Unkept<V(!new)>(v: View<V>, roots: seq<V>, f: Front<V>, n: nat, a: V)
    requires !v.keep(a) && FrontOk(v, roots, f, n, {a}, v.Succ(a)) && BooksOk(v, roots, f, {a}, v.Succ(a))
    ensures FrontOk(v, roots, f, n, {}, []) && BooksOk(v, roots, f, {}, [])
  {
  }

  /** Looks at a vertex that has just been expanded. */
  method Visit<V(==,!new)>(v: View<V>, roots: seq<V>, a: V, n: nat, expanded: set<V>,
                           ghost level: map<V, nat>, queue: seq<(nat, V)>, out: seq<V>)
    returns (ok: bool, q: seq<(nat, V)>, out': seq<V>)
    requires expanded == level.Keys && a in level && level[a] == n
    requires FrontOk(v, roots, Front(level, queue), n, {a}, v.Succ(a))
    requires BooksOk(v, roots, Front(level, queue), {a}, v.Succ(a))
    ensures out' == if v.keep(a) then out + [a] else out
    ensures ok ==> FrontOk(v, roots, Front(level, q), n, {}, []) && BooksOk(v, roots, Front(level, q), {}, [])
    ensures !ok ==> Broken(v, roots)
  {
    if !v.keep(a) {
      Unkept(v, roots, Front(level, queue), n, a);
      return true, queue, out;
    }
    SoundReaches(v, roots, Front(level, queue));
    ok, q := Enqueue(v, roots, a, n, expanded, level, queue);
    out' := out + [a];
  }

  /** `transitive_subgraph_of_addresses_bfs`: fails exactly when it would look up an unknown
      vertex; otherwise lists exactly the closure, each vertex once, in non-decreasing
      shortest distance from the roots. */
  method Bfs<V(==,!new)>(v: View<V>, roots: seq<V>) returns (r: Option<seq<V>>)
    ensures r.None? <==> Broken(v, roots)
    ensures r.Some? ==> IsClosure(v, roots, r.value) && NonDecreasing(v, roots, r.value)
  {
    var expanded: set<V>, out: seq<V> := {}, [];
    var queue: seq<(nat, V)> := seq(|roots|, i requires 0 <= i < |roots| => (0, roots[i]));
    ghost var level: map<V, nat>, n: nat := map[], 0;
    InitialFront(v, roots, queue);
    while queue != []
      invariant expanded == level.Keys && Listed(v, level, out)
      invariant FrontOk(v, roots, Front(level, queue), n, {}, []) && BooksOk(v, roots, Front(level, queue), {}, [])
      decreases v.known - expanded, |queue|
    {
      var (l, a) := queue[0];
      StartFront(v, roots, Front(level, queue), n);
      StartBooks(v, roots, Front(level, queue));
      queue, n := queue[1..], l;
      if a in expanded {
        continue;
      }
      if a !in v.known {
        return None;
      }
      ListNext(v, level, out, l, a);
      expanded, level := expanded + {a}, level[a := l];
      var ok;
      ok, queue, out := Visit(v, roots, a, l, expanded, level, queue, out);
      if !ok {
        return None;
      }
    }
    Drained(v, roots, Front(level, queue), out);
    return Some(out);
  }
}
