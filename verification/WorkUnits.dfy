/** Outcomes of hierarchical units of work (src/python/pants/base/workunit.py). */
module WorkUnits {

  const ABORTED := 0
  const FAILURE := 1
  const WARNING := 2
  const SUCCESS := 3
  const UNKNOWN := 4

  class WorkUnit {
    const parent: WorkUnit?
    ghost const depth: nat
    var outcome: int
    var children: seq<WorkUnit>
    ghost var given: set<int>  // the outcomes ever set on this unit itself

    /** The outcome is no better than anything given to this unit, or found in a subunit. */
    ghost predicate AsBad()
      reads this, children
    {
      (forall x :: x in given ==> outcome <= x) && (forall c :: c in children ==> outcome <= c.outcome)
    }

    ghost predicate Has(o: int)
      reads this, children
    {
      o in given || exists c :: c in children && c.outcome == o
    }

    /** ... and it comes from one of them. */
    ghost predicate Justified()
      reads this, children
    {
      outcome == UNKNOWN || Has(outcome)
    }

    /** A new unit under `parent`, among the units `U` of a run. */
    constructor (parent: WorkUnit?, ghost U: set<WorkUnit>)
      requires Run(U) && (parent != null ==> parent in U)
      modifies if parent == null then {} else {parent}
      ensures this.parent == parent && outcome == UNKNOWN && given == {} && children == []
      ensures Run(U + {this})
      ensures forall u :: u in U ==> u.outcome == old(u.outcome) && u.given == old(u.given)
      ensures forall u :: u in U ==> u.children == if u == parent then old(u.children) + [this] else old(u.children)
    {
      this.parent, outcome, children, given := parent, UNKNOWN, [], {};
      depth := if parent == null then 0 else parent.depth + 1;
      new;
      if parent != null {
        parent.children := parent.children + [this];
      }
      JoinsRun(U, this);
    }

    /** The unit has, or is about to get, the outcome `o`, and then is settled. */
    ghost predicate Due(o: int)
      reads this, children
    {
      && ABORTED <= outcome <= UNKNOWN && Has(o) && (outcome <= o ==> Justified())
      && (forall x :: x in given ==> outcome <= x || o <= x)
      && (forall c :: c in children ==> outcome <= c.outcome || o <= c.outcome)
    }

    /** Takes over a worse outcome, which then is due to the parent. */
    method Take(o: int, ghost U: set<WorkUnit>)
      requires Tree(U) && this in U && ABORTED <= o < outcome && Due(o)
      requires forall u :: u in U && u != this ==> u.Settled()
      modifies this`outcome
      ensures Tree(U) && (forall u :: u in U && u != parent ==> u.Settled()) && (parent != null ==> parent.Due(o))
    {
      outcome := o;
    }

    /** The propagation: stops at the first unit that is already as bad. */
    method Lower(o: int, ghost U: set<WorkUnit>)
      requires Tree(U) && this in U && ABORTED <= o <= UNKNOWN && Due(o)
      requires forall u :: u in U && u != this ==> u.Settled()
      modifies U`outcome
      ensures Run(U)
      decreases depth
    {
      if o < outcome {
        Take(o, U);
        if parent != null {
          parent.Lower(o, U);
        }
      }
    }

    /** `set_outcome` from outside: records what was given, refuses what is no outcome. */
    method SetOutcome(o: int, ghost U: set<WorkUnit>) returns (ok: bool)
      requires Run(U) && this in U
      modifies U
      ensures Run(U) && ok == (ABORTED <= o <= UNKNOWN)
      ensures forall u :: u in U ==> u.children == old(u.children)
      ensures forall u :: u in U ==> u.given == if ok && u == this then old(u.given) + {o} else old(u.given)
    {
      if !(ABORTED <= o <= UNKNOWN) {
        return false;
      }
      given := given + {o};
      Lower(o, U);
      return true;
    }

    ghost predicate Settled()
      reads this, children
    {
      ABORTED <= outcome <= UNKNOWN && AsBad() && Justified()
    }
  }

  /** The units of a run know each other: parents list exactly their children. */
  ghost predicate Tree(U: set<WorkUnit>)
    reads U
  {
    && (forall u :: u in U && u.parent != null ==> u.parent in U && u.parent.depth < u.depth && u in u.parent.children)
    && (forall u, c :: u in U && c in u.children ==> c in U && c.parent == u)
  }

  ghost predicate Run(U: set<WorkUnit>)
    reads U
    reads set u, c | u in U && c in u.children :: c
  {
    Tree(U) && forall u :: u in U ==> u.Settled()
  }

  /** The unit `n` joined its parent's children, while nothing else changed. */
  twostate predicate Joined(U: set<WorkUnit>, new n: WorkUnit)
    reads U, n
  {
    && n !in U && n.outcome == UNKNOWN && n.given == {} && n.children == []
    && (n.parent == null || (n.parent in U && n.depth == n.parent.depth + 1))
    && (forall u :: u in U ==> u.outcome == old(u.outcome) && u.given == old(u.given))
    && (forall u :: u in U ==> u.children == if u == n.parent then old(u.children) + [n] else old(u.children))
  }

  twostate lemma JoinedTree(U: set<WorkUnit>, new n: WorkUnit)
    requires old(Tree(U)) && Joined(U, n)
    ensures Tree(U + {n})
  {
  }

  /** What was settled still is: a unit without an outcome of its own is no worse. */
  twostate lemma JoinedSettled(U: set<WorkUnit>, new n: WorkUnit)
    requires old(Run(U)) && Joined(U, n)
    ensures forall u :: u in U ==> u.Settled()
  {
    assert forall u :: u in U ==> old(u.Settled());
    assert forall u, c :: u in U && c in old(u.children) ==> c in U;
  }

  /** A new unit keeps a run. */
  twostate lemma JoinsRun(U: set<WorkUnit>, new n: WorkUnit)
    requires old(Run(U)) && Joined(U, n)
    ensures Run(U + {n})
  {
    JoinedTree(U, n);
    JoinedSettled(U, n);
  }

  /** `d` is `u` or a subunit of it, directly or not. */
  ghost predicate Within(d: WorkUnit, u: WorkUnit)
    decreases d.depth
  {
    d == u || (d.parent != null && d.parent.depth < d.depth && Within(d.parent, u))
  }

  /** `o` was set on `u` or on a subunit of it. */
  ghost predicate GivenWithin(U: set<WorkUnit>, u: WorkUnit, o: int)
    reads U
  {
    exists d :: d in U && Within(d, u) && o in d.given
  }

  lemma {:induction false} NoBetterThanSubunit(U: set<WorkUnit>, d: WorkUnit, u: WorkUnit)
    requires Run(U) && d in U && Within(d, u)
    ensures u.outcome <= d.outcome
    decreases d.depth
  {
    if d != u {
      assert d in d.parent.children && d.parent.AsBad();
      NoBetterThanSubunit(U, d.parent, u);
    }
  }

  lemma {:induction false} WithinTrans(U: set<WorkUnit>, d: WorkUnit, c: WorkUnit)
    requires Tree(U) && d in U && Within(d, c) && c.parent != null && c.parent.depth < c.depth
    ensures Within(d, c.parent)
    decreases d.depth
  {
    if d != c {
      WithinTrans(U, d.parent, c);
    }
  }

  /** Following the bad outcome down leads to a unit it was set on. */
  lemma {:induction false} Culprit(U: set<WorkUnit>, u: WorkUnit)
    requires Run(U) && u in U && u.outcome != UNKNOWN
    ensures GivenWithin(U, u, u.outcome)
    decreases set x | x in U && u.depth < x.depth
  {
    assert u.Justified();
    if u.outcome !in u.given {
      var c :| c in u.children && c.outcome == u.outcome;
      assert c in U && c.parent == u && u.depth < c.depth;
      var below, belowC := set x | x in U && u.depth < x.depth, set x | x in U && c.depth < x.depth;
      assert c in below && c !in belowC;
      Culprit(U, c);
      var d :| d in U && Within(d, c) && c.outcome in d.given;
      WithinTrans(U, d, c);
    }
  }

  /** In every run, the outcome of a unit is the worst of UNKNOWN and everything ever set on it
      or on one of its subunits, although propagation stops early. */
  lemma WorstOutcome(U: set<WorkUnit>, u: WorkUnit)
    requires Run(U) && u in U
    ensures forall o :: GivenWithin(U, u, o) ==> u.outcome <= o
    ensures u.outcome <= UNKNOWN && (u.outcome == UNKNOWN || GivenWithin(U, u, u.outcome))
  {
    forall o | GivenWithin(U, u, o)
      ensures u.outcome <= o
    {
      var d :| d in U && Within(d, u) && o in d.given;
      NoBetterThanSubunit(U, d, u);
    }
    if u.outcome != UNKNOWN {
      Culprit(U, u);
    }
  }

  /** Said for each outcome: nothing that went wrong in a subunit is hidden, and nothing is made
      up. */
  lemma OutcomeMeans(U: set<WorkUnit>, u: WorkUnit)
    requires Run(U) && u in U
    ensures u.outcome == ABORTED <==> GivenWithin(U, u, ABORTED)
    ensures u.outcome == FAILURE <==> GivenWithin(U, u, FAILURE) && !GivenWithin(U, u, ABORTED)
    ensures u.outcome == WARNING <==>
              GivenWithin(U, u, WARNING) && !GivenWithin(U, u, FAILURE) && !GivenWithin(U, u, ABORTED)
    ensures u.outcome == SUCCESS ==>
              && GivenWithin(U, u, SUCCESS) && !GivenWithin(U, u, WARNING)
              && !GivenWithin(U, u, FAILURE) && !GivenWithin(U, u, ABORTED)
  {
    WorstOutcome(U, u);
    assert u.Settled();
  }
}
