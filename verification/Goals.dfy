/** Goals and the tasks installed in them (src/python/pants/goal/goal.py). */
module Goals {
  import opened Wrappers
  import opened Graphs

  datatype Outcome = Done | GoalError | OptionsError

  /** The stable subclass created per superclass and options scope; the creation is
      memoized, so two of these are the same class exactly when both parts agree. */
  datatype TaskType = TaskType(superclass: string, scope: string)

  predicate IsWordChar(c: char) {
    'a' <= c <= 'z' || '0' <= c <= '9'
  }

  /** Dash-separated words of lower-case letters and digits. The pattern ends in `$`,
      which also matches just before a final newline. */
  predicate ValidComponent(s: string) {
    var t := if |s| > 0 && s[|s| - 1] == '\n' then s[..|s| - 1] else s;
    && |t| > 0
    && (forall i | 0 <= i < |t| :: IsWordChar(t[i]) || t[i] == '-')
    && t[0] != '-' && t[|t| - 1] != '-'
    && (forall i | 1 <= i < |t| :: !(t[i - 1] == '-' && t[i] == '-'))
  }

  function Scope(goal: string, task: string): string {
    if goal == task then goal else goal + "." + task
  }

  lemma ComponentHasNoDot(s: string)
    requires ValidComponent(s)
    ensures '.' !in s
  {
    var t := if s[|s| - 1] == '\n' then s[..|s| - 1] else s;
    assert !IsWordChar('.') && s <= t + ['\n'];
    forall i | 0 <= i < |s|
      ensures s[i] != '.'
    {
      assert i < |t| ==> IsWordChar(t[i]) || t[i] == '-';
    }
  }

  /** Text splits at its only dot. */
  lemma DotSplits(g: string, t: string)
    ensures var s := g + "." + t; |s| == |g| + 1 + |t| && s[|g|] == '.' && s[..|g|] == g && s[|g| + 1..] == t
  {
  }

  lemma DottedInjective(g: string, t: string, g': string, t': string)
    requires '.' !in g && '.' !in t && '.' !in g' && '.' !in t'
    ensures g + "." + t == g' + "." + t' <==> g == g' && t == t'
  {
    DotSplits(g, t);
    DotSplits(g', t');
  }

  lemma ScopeDot(g: string, t: string)
    requires '.' !in g
    ensures '.' in Scope(g, t) <==> g != t
  {
    DotSplits(g, t);
  }

  lemma ScopesAlike(g: string, t: string, g': string, t': string)
    requires '.' !in g && '.' !in t && '.' !in g' && '.' !in t'
    ensures Scope(g, t) == Scope(g', t') <==> g == g' && t == t'
  {
    ScopeDot(g, t);
    ScopeDot(g', t');
    if g != t {
      DottedInjective(g, t, g', t');
    }
  }

  /** An options scope names the goal before its dot and the task after it. */
  lemma ScopeParts(g: string, t: string)
    requires ValidComponent(g) && ValidComponent(t) && g != t
    ensures exists i :: 0 <= i < |Scope(g, t)| && Scope(g, t)[i] == '.' && Scope(g, t)[..i] == g &&
                        Scope(g, t)[i + 1..] == t
  {
    DotSplits(g, t);
    assert Scope(g, t)[|g|] == '.';
  }

  /** An options scope determines its goal and its task. */
  lemma ScopeInjective(g: string, t: string, g': string, t': string)
    requires ValidComponent(g) && ValidComponent(t) && ValidComponent(g') && ValidComponent(t')
    ensures Scope(g, t) == Scope(g', t') <==> g == g' && t == t'
  {
    ComponentHasNoDot(g);
    ComponentHasNoDot(t);
    ComponentHasNoDot(g');
    ComponentHasNoDot(t');
    ScopesAlike(g, t, g', t');
  }

  /** What a goal holds: its task names in registration order and their types. */
  datatype GoalDef = GoalDef(name: string, names: seq<string>, types: map<string, TaskType>, serialize: bool) {
    ghost predicate Valid() {
      && ValidComponent(name)
      && NoDup(names)
      && (forall n :: n in names <==> n in types)
      && (forall n :: n in types ==> ValidComponent(n) && types[n].scope == Scope(name, n))
    }
  }

  /** Different tasks have different types, within a goal and across goals. */
  lemma TypesIdentifyTasks(g: GoalDef, n: string, h: GoalDef, m: string)
    requires g.Valid() && h.Valid() && n in g.types && m in h.types
    requires g.types[n] == h.types[m]
    ensures (g.name, n) == (h.name, m)
  {
    ScopeInjective(g.name, n, h.name, m);
  }

  datatype Placement = Placement(first: bool, replace: bool, before: Option<string>, after: Option<string>) {
    /** How many of the four arguments are truthy. */
    function Count(): nat {
      (if first then 1 else 0) + (if replace then 1 else 0)
      + (if before.Some? && before.value != "" then 1 else 0)
      + (if after.Some? && after.value != "" then 1 else 0)
    }

    /** Where a task goes among `names`. */
    function Slot(names: seq<string>): (k: nat)
      ensures k <= |names|
    {
      if first then 0
      else if before.Some? && before.value in names then IndexOf(names, before.value)
      else if after.Some? && after.value in names then IndexOf(names, after.value) + 1
      else |names|
    }
  }

  /** The entries of `s` other than `x`, in order. */
  function Without(s: seq<string>, x: string): seq<string> {
    if s == [] then [] else (if s[0] == x then [] else [s[0]]) + Without(s[1..], x)
  }

  lemma {:induction false} WithoutAbsent(s: seq<string>, x: string)
    requires x !in s
    ensures Without(s, x) == s
  {
    if s != [] {
      WithoutAbsent(s[1..], x);
    }
  }

  /** Removing a name takes out exactly its one occurrence. */
  lemma {:induction false} WithoutUnique(s: seq<string>, k: nat)
    requires NoDup(s) && k < |s|
    ensures Without(s, s[k]) == s[..k] + s[k + 1..]
  {
    if k == 0 {
      WithoutAbsent(s[1..], s[0]);
    } else {
      WithoutUnique(s[1..], k - 1);
      assert s[..k] + s[k + 1..] == [s[0]] + (s[1..][..k - 1] + s[1..][k..]);
    }
  }

  lemma RemoveKeepsNames(s: seq<string>, k: nat)
    requires NoDup(s) && k < |s|
    ensures NoDup(s[..k] + s[k + 1..])
    ensures forall n :: n in s[..k] + s[k + 1..] <==> n in s && n != s[k]
  {
    var t := s[..k] + s[k + 1..];
    forall n | n in s && n != s[k]
      ensures n in t
    {
      var i :| 0 <= i < |s| && s[i] == n;
      assert t[if i < k then i else i - 1] == n;
    }
  }

  lemma WithoutKeepsNames(s: seq<string>, x: string)
    requires NoDup(s) && x in s
    ensures NoDup(Without(s, x)) && forall n :: n in Without(s, x) <==> n in s && n != x
  {
    var k := IndexOf(s, x);
    WithoutUnique(s, k);
    RemoveKeepsNames(s, k);
  }

  lemma InsertKeepsNames(s: seq<string>, k: nat, x: string)
    requires NoDup(s) && k <= |s| && x !in s
    ensures NoDup(s[..k] + [x] + s[k..])
    ensures forall n :: n in s[..k] + [x] + s[k..] <==> n in s || n == x
  {
    var t := s[..k] + [x] + s[k..];
    forall n | n in s || n == x
      ensures n in t
    {
      if n != x {
        var i :| 0 <= i < |s| && s[i] == n;
        assert t[if i < k then i else i + 1] == n;
      } else {
        assert t[k] == x;
      }
    }
  }

  predicate Adjacent(s: seq<string>, a: string, b: string) {
    exists i :: 0 <= i < |s| - 1 && s[i] == a && s[i + 1] == b
  }

  /** `task` is where the arguments want it among the old `names`: first; directly before or after
      the named task, if that is installed; otherwise last. */
  ghost predicate Placed(place: Placement, names: seq<string>, task: string, all: seq<string>) {
    all != [] &&
    if place.first then all[0] == task
    else if place.before.Some? && place.before.value in names then Adjacent(all, task, place.before.value)
    else if place.after.Some? && place.after.value in names then Adjacent(all, place.after.value, task)
    else all[|all| - 1] == task
  }

  /** The old tasks keep their order around the new one, which is where it is wanted. */
  ghost predicate Inserted(place: Placement, names: seq<string>, task: string, all: seq<string>) {
    var k := place.Slot(names);
    all == names[..k] + [task] + names[k..] && Placed(place, names, task, all)
  }

  lemma SlotPlaces(place: Placement, names: seq<string>, task: string)
    ensures var k := place.Slot(names); Placed(place, names, task, names[..k] + [task] + names[k..])
  {
    var k := place.Slot(names);
    var all := names[..k] + [task] + names[k..];
    if place.first {
    } else if place.before.Some? && place.before.value in names {
      assert all[k] == task && all[k + 1] == place.before.value;
    } else if place.after.Some? && place.after.value in names {
      assert all[k - 1] == place.after.value && all[k] == task;
    }
  }

  class Goal {
    const name: string
    var types: map<string, TaskType>
    var names: seq<string>
    var serialize: bool

    function Def(): GoalDef
      reads this
    {
      GoalDef(name, names, types, serialize)
    }

    ghost predicate Valid()
      reads this
    {
      Def().Valid()
    }

    constructor (name: string)
      requires ValidComponent(name)
      ensures Valid() && Def() == GoalDef(name, [], map[], false)
    {
      this.name, types, names, serialize := name, map[], [], false;
    }

    /** Puts a new task in its place. */
    method Insert(task: string, taskType: TaskType, place: Placement)
      requires Valid() && task !in types && ValidComponent(task) && taskType.scope == Scope(name, task)
      modifies this`names, this`types
      ensures Valid() && types == old(types)[task := taskType]
      ensures Inserted(place, old(names), task, names)
    {
      var k := place.Slot(names);
      InsertKeepsNames(names, k, task);
      SlotPlaces(place, names, task);
      names := names[..k] + [task] + names[k..];
      types := types[task := taskType];
    }

    /** Installs a task. The old tasks keep their relative order around the new one; a
        failing call changes nothing, except that `replace` has emptied the goal
        before the name of the new task is validated. */
    method Install(task: string, superclass: string, place: Placement, serializes: bool)
      returns (o: Outcome)
      requires Valid()
      modifies this
      ensures Valid()
      ensures o.Done? <==> place.Count() <= 1 && (place.replace || task !in old(types)) && ValidComponent(task)
      ensures place.Count() > 1 ==> o.GoalError? && Def() == old(Def())
      ensures !o.Done? && !place.replace ==> Def() == old(Def())
      ensures !o.Done? && place.Count() <= 1 && place.replace ==>
                o.OptionsError? && names == [] && types == map[] && serialize == old(serialize)
      ensures o.Done? ==>
                && Inserted(place, if place.replace then [] else old(names), task, names)
                && types == (if place.replace then map[] else old(types))
                              [task := TaskType(superclass, Scope(name, task))]
                && serialize == (old(serialize) || serializes)
    {
      if place.Count() > 1 {
        return GoalError;
      }
      if place.replace {
        names, types := [], map[];
      }
      if task in types {
        return GoalError;
      }
      if !ValidComponent(task) {
        return OptionsError;
      }
      Insert(task, TaskType(superclass, Scope(name, task)), place);
      if serializes {
        serialize := true;
      }
      return Done;
    }

    /** Removes a task; the rest keep their order. `serialize` is not relaxed. */
    method UninstallTask(task: string) returns (o: Outcome)
      requires Valid()
      modifies this
      ensures Valid()
      ensures o == if task in old(types) then Done else GoalError
      ensures !o.Done? ==> Def() == old(Def())
      ensures o.Done? ==>
                names == Without(old(names), task) && types == old(types) - {task} && serialize == old(serialize)
    {
      if task !in types {
        return GoalError;
      }
      WithoutKeepsNames(names, task);
      names, types := Without(names, task), types - {task};
      return Done;
    }
  }

  /** A failing call can take all tasks away: whatever is installed, replacing it by a task with
      no name does. */
  method ReplaceByNothing(goal: Goal, superclass: string, serializes: bool) returns (o: Outcome)
    requires goal.Valid()
    modifies goal
    ensures goal.Valid() && o.OptionsError? && goal.names == [] && goal.types == map[]
  {
    o := goal.Install("", superclass, Placement(false, true, None, None), serializes);
  }
}
