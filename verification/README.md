# A verified model of the Pants build graph and goal scheduler

This project models the v1 kernel of Pants in Dafny and proves what it promises: the mutable
build graph with its walks, sorting and memoized fingerprints; the scheduling of goals and
tasks by the products they need; alias substitution; hydration of structs; the context's
target cache; work-unit outcomes; background work chains; and addresses.

| file | models |
|---|---|
| `Graphs.dfy`, `Wrappers.dfy` | paths, reachability, cycles, ranks; optional values and defaulting lookups |
| `Goals.dfy`, `RoundManager.dfy`, `GoalScheduling.dfy`, `RoundEngine.dfy` | goals, product requirements, closing and sorting goals, running the plan under the workspace lock |
| `Address.dfy` | parsing, checking and printing addresses |
| `Walks.dfy`, `BreadthFirst.dfy` | the depth-first walks and the breadth-first closure, over any filtered view of a graph |
| `BuildGraph.dfy`, `SortTargets.dfy`, `Closures.dfy` | the graph object and its invariants, derivations, cycle detection, sorting, closures by scope |
| `Fingerprints.dfy`, `ChangeDetection.dfy` | memoized transitive fingerprints and their invalidation; which changes a fingerprint shows |
| `Aliases.dfy` | alias substitution as a node-by-node transitive closure |
| `Hydration.dfy`, `Erasure.dfy` | the collecting and the consuming pass of struct hydration; what hydration keeps |
| `Context.dfy`, `Keywords.dfy`, `CacheKeys.dfy` | the cached targets in play; what the keywords of a query mean; when the key of the cache is enough |
| `WorkUnits.dfy`, `WorkerPool.dfy` | outcomes of work units; work chains as interleaved steps |

Conventions. Graphs are sets of edges. Objects that the source updates in place are classes;
`BuildGraph.Now()` is the graph as a value, on which most lemmas speak. The defaulting
dictionaries count missing entries as empty. A raised exception is an `Option` that is `None`, an
error value, or a `false`. Ordered sets are sequences without duplicates. Hash functions, strategies and
the engine's resolution of an address are parameters. Lookups of an address that is not in the
graph raise in the source; the model keeps that error and proves exactly when it happens.

Findings where a plausible property is false of the code:

- `BuildGraph.inject_dependency` called directly dirties no fingerprint. A new edge is safe for
  every hash function exactly when no target with a transitive memo leads to the dependent, and the
  dependent itself has no memo of its direct dependencies (`DirectInjectionExactly`). Alias
  substitution injects that way, so the same holds for all the edges it adds (`BypassMemos`).
- The context's cache key holds keyword names but not values. A list cached under one set of
  values serves another on every graph exactly when the two have the same exclusions, the same
  inclusions that are not excluded, the same regard for intransitivity and the same traversal, or
  when both ask only for scopes they exclude (`KeySuffices`). Otherwise some run, built by
  injecting targets and edges and querying twice, answers the second query wrongly
  (`WrongAnswer`).
- A work in which two invocations fail calls `done` twice. While the pool is open, no chain having
  seen two failures is exactly the condition for a safe shutdown (`SafeExactly`), and for losing
  no work (`LossExactly`). Under it every hook runs exactly once (`HookRunsOnce`); in general it
  runs once per failure, and not at all for a chain whose next work a closed pool lost
  (`HooksAtRest`).
- A spec is read back to its address exactly when the name holds no colon (`SpecRoundTrip`);
  with one, as in `a:b:c`, it can be read as another valid address (`SpecMisread`).
- `install` with `replace` has emptied the goal before it rejects an invalid task name
  (`ReplaceByNothing`).

## Model

| member | source | states |
|---|---|---|
| Goals.ScopeInjective | src/python/pants/goal/goal.py:94-100 | an options scope determines both the goal and the task it belongs to, for valid scope name components |
| Goals.ScopeParts | src/python/pants/goal/goal.py:94-100 | an options scope names the goal before its dot and the task after it |
| Goals.TypesIdentifyTasks | src/python/pants/goal/goal.py:11-31 | two tasks that share a stable task type are the same task of the same goal |
| Goals.Goal.Install | src/python/pants/goal/goal.py:165-213 | exactly when an installation succeeds; the old tasks keep their order around the new one, which is first, directly before or after the task it was given, or last; what a failing call leaves behind |
| Goals.Goal.UninstallTask | src/python/pants/goal/goal.py:215-230 | removes one task, keeps the order of the others, fails exactly for unknown names |
| Goals.ReplaceByNothing | src/python/pants/goal/goal.py:180-193 | on every goal, a failing call can take away all installed tasks |
| Goals.WithoutUnique | src/python/pants/goal/goal.py:228 | filtering out a name removes exactly its one occurrence |
| RoundManagers.IndexProducts | src/python/pants/engine/round_manager.py:21-29 | the index holds every registered producer of each product and nothing else |
| RoundManagers.RoundManager.Prepare | src/python/pants/engine/round_manager.py:37-79 | after a task's prepare, the dependency sets are exactly its required and its tolerated products |
| RoundManagers.RoundManager.GetDependencies | src/python/pants/engine/round_manager.py:81-95 | exactly the producers of the required products; fails exactly when a product that is not optional has none |
| GoalScheduling.ClassifyProducers | src/python/pants/engine/round_engine.py:148-172 | the goals of foreign producers; an ordering error exactly for an already visited sibling other than the task itself |
| GoalScheduling.Inspect | src/python/pants/engine/round_engine.py:132-179 | success means that the goal's dependencies are exactly its product needs in other goals and that no task needs a later task or lacks a product; each error means the fault it names |
| GoalScheduling.GoalInfos.Visit | src/python/pants/engine/round_engine.py:132-182 | adds only goals needed transitively, everything new has its needs visited too, and an error is deserved by a goal needed transitively; terminates on cyclic needs |
| GoalScheduling.CollectDependees | src/python/pants/engine/round_engine.py:75-88 | the dependee map is the exact inverse of the goal dependencies |
| GoalScheduling.StuckMeansCycle | src/python/pants/engine/round_engine.py:91-108 | if every pending goal waits for a pending one, the dependencies have a cycle |
| GoalScheduling.TopologicalSort | src/python/pants/engine/round_engine.py:74-108 | fails exactly when the goal dependencies have a cycle; otherwise yields each goal once, after all of its dependees |
| RoundEngines.VisitedCycles | src/python/pants/engine/round_engine.py:194-199 | the visited goals are closed under needs, and have a cycle exactly when the requested goals lead to one |
| RoundEngines.SortGoals | src/python/pants/engine/round_engine.py:194-199 | a plan of exactly the transitively needed goals with needs first, and then no fault and no cycle; an error only for a goal that deserves it |
| RoundEngines.RegistrationOrder | src/python/pants/engine/round_engine.py:35-45 | the visiting order is reversed twice, so tasks of a goal run as registered |
| RoundEngines.ProducersFirst | src/python/pants/engine/round_engine.py:132-199 | the flattened task sequence has exactly the tasks of the needed goals, each once, and every task comes after every other registered producer of what it requires, in its own goal or another |
| RoundEngines.RanProducersFirst | src/python/pants/engine/round_engine.py:207-235 | in every run, also one cut short by a raising task, a task that ran did so after every other producer of what it requires |
| RoundEngines.RunTasks | src/python/pants/engine/round_engine.py:26-45 | runs the tasks of a goal in order through the first that raises, and nothing else |
| RoundEngines.RunPlan | src/python/pants/engine/round_engine.py:222-235 | every task runs with the lock held exactly when its own goal or a later one of the plan is serialized; the lock is taken and given back once if some goal is serialized, never if none is, and is free at the end, also when a task raises; the plan runs in order through the first task that raises |
| RoundEngines.GuardedAt | src/python/pants/engine/round_engine.py:222-235 | what that means at each task of a run |
| RoundEngines.LastSerialized | src/python/pants/engine/round_engine.py:222-223 | the lock holder is the last serialized goal of the plan |
| RoundEngines.Attempt | src/python/pants/engine/round_engine.py:207-235 | the whole run: an error is deserved by the requested goals and runs nothing; otherwise the plan is run, every task under the lock exactly as long as its own or a later goal is serialized, and the lock ends up free |
| Addresses.SanePathExact | src/python/pants/build_graph/address.py:139-155 | a spec path is accepted exactly if it is empty or all its components are non-empty, neither "." nor "..", the last not starting with BUILD |
| Addresses.ParseColon | src/python/pants/build_graph/address.py:57-84 | what becomes of any text with a path and a name, the two errors included |
| Addresses.SpecRoundTrip | src/python/pants/build_graph/address.py:194-205 | parsing the canonical spec of a valid address, relative to any path, gives it back exactly when its name has no colon; root-level targets included |
| Addresses.SpecAbsolute | src/python/pants/build_graph/address.py:194-205 | the canonical spec starts with a slash exactly for targets at the root |
| Addresses.SpecMisread | src/python/pants/build_graph/address.py:70-81 | for any words a, b and c the spec of the valid address named b:c at path a is read as the one named c at path a:b |
| Addresses.ReferenceRoundTrip | src/python/pants/build_graph/address.py:223-233 | the same for the form used in a BUILD file at a path: relative, canonical, or the bare path of a default-named target |
| Addresses.BarePath | src/python/pants/build_graph/address.py:70-81 | a bare path reads back as its default-named target exactly when it has no colon |
| Addresses.AbsoluteRoundTrip | src/python/pants/build_graph/address.py:57-84 | a spec with two leading slashes is read as the address without them, from any path, exactly when the name has no colon |
| Addresses.AbsoluteBare | src/python/pants/build_graph/address.py:70-84 | the same for a bare path with two leading slashes and the default name |
| Addresses.DefaultName | src/python/pants/build_graph/address.py:70-74 | the default name is the last component of the path |
| Walks.Walk.Rec | src/python/pants/build_graph/build_graph.py:399-425 | one recursive call settles everything it expands, keeps the order invariants, and fails only if it leads to an unknown vertex |
| Walks.DepthFirst | src/python/pants/build_graph/build_graph.py:397-428 | fails exactly when an unknown vertex is met; otherwise works exactly the vertices reached along allowed edges through kept vertices, each once; children first in postorder; in preorder parents first and in depth: while a worked vertex has an allowed edge to one still to be worked, everything worked since has an allowed edge from it or from something worked after it |
| Walks.PostorderOnAcyclic | src/python/pants/build_graph/build_graph.py:376-377 | without cycles, postorder works every target after all kept targets it has an allowed edge to |
| Walks.ClosuresAgree | src/python/pants/build_graph/build_graph.py:361-428 | all walks from the same roots work the same set |
| BreadthFirst.NearExpanded | src/python/pants/build_graph/build_graph.py:533-548 | everything nearer to the roots than the head of the queue has been expanded |
| BreadthFirst.DistanceExists | src/python/pants/build_graph/build_graph.py:533-548 | every reached target has a shortest distance |
| BreadthFirst.Bfs | src/python/pants/build_graph/build_graph.py:511-549 | fails exactly when an unknown vertex is met; otherwise lists exactly the closure, each once, in non-decreasing shortest distance in the filtered graph; terminates |
| BuildGraphs.DependencyKeepsValid | src/python/pants/build_graph/build_graph.py:328-333 | injecting a dependency adds exactly one edge and keeps the two edge maps inverse |
| BuildGraphs.TargetKeepsValid | src/python/pants/build_graph/build_graph.py:276-290 | a new target keeps the graph consistent, adds no edge, and keeps derivations a forest |
| BuildGraphs.TargetBrings | src/python/pants/build_graph/build_graph.py:244-293 | an injected target brings itself, its dependencies in their order, its derivation, and whether it is synthetic, and nothing else |
| BuildGraphs.EveryRunValid | src/python/pants/build_graph/build_graph.py:244-333 | after every run of injections and resets the dependees are the exact inverse of the dependencies, every dependent is known, and derivations form a forest |
| BuildGraphs.BuildGraph.InjectDependency | src/python/pants/build_graph/build_graph.py:295-333 | fails exactly for an unknown dependent, otherwise adds the edge; registered caches are cleared either way |
| BuildGraphs.BuildGraph.InjectTarget | src/python/pants/build_graph/build_graph.py:244-293 | fails, changing nothing, exactly when the address is taken or the origin unknown; otherwise adds the target, its derivation and its dependencies |
| BuildGraphs.BuildGraph.Reset | src/python/pants/build_graph/build_graph.py:120-131 | empties the graph and clears registered caches |
| BuildGraphs.BuildGraph.Invalidated | src/python/pants/build_graph/build_graph.py:143-147 | clears every registered cache |
| BuildGraphs.WalkEdge | src/python/pants/build_graph/build_graph.py:361-428 | what the two predicates of a walk let it follow and work |
| BuildGraphs.BuildGraph.WalkDependencies | src/python/pants/build_graph/build_graph.py:361-428 | the walk's guarantees on the graph filtered by the two predicates |
| BuildGraphs.BuildGraph.WalkBreadthFirst | src/python/pants/build_graph/build_graph.py:511-549 | the breadth-first guarantees on the graph filtered by the two predicates |
| BuildGraphs.BuildGraph.WalkDependees | src/python/pants/build_graph/build_graph.py:430-463 | the same walk over the inverse edges |
| BuildGraphs.DependeeWalk | src/python/pants/build_graph/build_graph.py:430-463 | an unpredicated dependee walk from known targets never meets an unknown one and visits exactly the targets that transitively depend on a root |
| BuildGraphs.OriginUnique | src/python/pants/build_graph/build_graph.py:206-218 | a target has only one concrete origin |
| BuildGraphs.BuildGraph.GetConcreteDerivedFrom | src/python/pants/build_graph/build_graph.py:206-218 | terminates at a target derived from nothing |
| BuildGraphs.SiblingsDisjoint | src/python/pants/build_graph/build_graph.py:230-242 | nothing derives from two different derivatives of the same target |
| BuildGraphs.BuildGraph.GetAllDerivatives | src/python/pants/build_graph/build_graph.py:230-242 | terminates and lists every direct or indirect derivative, and nothing else, once |
| BuildGraphs.DerivativesByOrigin | src/python/pants/build_graph/build_graph.py:206-242 | for an underived target, its derivatives are the other targets whose concrete origin it is |
| SortTargets.Inverter.Invert | src/python/pants/build_graph/build_graph.py:656-672 | a call finishes its target after all its dependencies, or reports a real cycle through the path or an unknown target |
| SortTargets.InvertDependencies | src/python/pants/build_graph/build_graph.py:645-677 | reports a real cycle reached from the targets, with consecutive entries dependencies and first equal to last; when all dependencies are known, raises exactly when there is one; otherwise inverts exactly the dependencies of the closure |
| SortTargets.FinishedAcyclic | src/python/pants/build_graph/build_graph.py:656-672 | targets listed after their dependencies form a closed set without cycles |
| SortTargets.LeavesReachAll | src/python/pants/build_graph/build_graph.py:699-700 | going up inverted dependencies from the leaves reaches the whole closure and nothing else |
| SortTargets.Sort | src/python/pants/build_graph/build_graph.py:680-702 | when it does not raise: exactly the dependency closure, each target once, before all of its dependencies |
| Closures.ClosureEdge | src/python/pants/build_graph/target.py:222-235 | which dependencies a closure follows, by scope and transitivity |
| Closures.IntransitiveFromRoots | src/python/pants/build_graph/target.py:228-234 | an intransitive target that is no root is in the closure exactly when it is in scope and a root depends on it directly |
| Closures.UnfilteredClosure | src/python/pants/build_graph/target.py:224-225 | without filters the closure is everything the roots depend on |
| Closures.RootsIncluded | src/python/pants/build_graph/target.py:280-281 | roots are in the closure whatever the scopes |
| Closures.UpdateAppends | src/python/pants/goal/context.py:342 | an update keeps what is there in front and appends what is new in its order |
| Closures.ClosureForTargets | src/python/pants/build_graph/target.py:237-282 | the same targets, each once, for every traversal; by distance, children first, or in depth with parents first, as the traversal promises; fails exactly when an unknown target is needed |
| Fingerprints.EvalRaises | src/python/pants/build_graph/target.py:433-436 | the plain recursion raises exactly when a dependency chain exceeds its levels or leads to an unknown target |
| Fingerprints.EvalMono | src/python/pants/build_graph/target.py:422-473 | deeper recursion does not change a computed fingerprint |
| Fingerprints.InjectionKeepsExact | src/python/pants/build_graph/target.py:488-496 | dirtying all transitive dependees after an injection leaves only fingerprints equal to the plain recursion |
| Fingerprints.NewTargetKeepsExact | src/python/pants/build_graph/build_graph.py:244-293 | a new target makes no memo stale, even where edges dangled onto its address |
| Fingerprints.Targets.TransitiveHash | src/python/pants/build_graph/target.py:422-473 | with memos from any earlier calls: equals a fresh computation wherever that succeeds; anything else it returns is the plain recursion without the depth limit, which a memo can let it reach; keeps all memos exact; terminates on every graph |
| Fingerprints.Targets.InjectDependency | src/python/pants/build_graph/target.py:488-496 | adds the edge and keeps every remaining memo exact |
| Fingerprints.Targets.InjectTarget | src/python/pants/build_graph/build_graph.py:244-293 | injects the target and keeps every memo exact |
| Fingerprints.MemosAreFresh | src/python/pants/build_graph/target.py:422-473 | where all dependencies are known and chains have at most 250 edges, a fresh computation succeeds and equals the memo |
| Fingerprints.NoMemoOnCycle | src/python/pants/build_graph/target.py:433-436 | nothing that leads to a cycle is ever memoized |
| Fingerprints.ExtensionExactly | src/python/pants/build_graph/build_graph.py:295-333 | any dependencies added without dirtying leave memos exact, for every hash function, exactly when no target with a transitive memo leads to one that gained a dependency and none with a direct memo gained one |
| Fingerprints.DirectInjectionExactly | src/python/pants/build_graph/build_graph.py:295-333 | injection without dirtying is safe for every hash function exactly when the edge was there, or no target with a transitive memo leads to the dependent and the dependent has no direct memo |
| ChangeDetection.FingerprintTells | src/python/pants/build_graph/target.py:449-471 | with a digest without collisions, two targets have the same fingerprint exactly when their own hashes and the multisets of their dependencies' fingerprints are the same |
| ChangeDetection.DirectTells | src/python/pants/build_graph/target.py:449-471 | the same for fingerprints of direct dependencies |
| ChangeDetection.SameCoverage | src/python/pants/build_graph/target.py:422-473 | targets with the same fingerprint, in one graph or two, lead by equally many dependency paths to targets with any given hash of their own |
| ChangeDetection.ChangeShows | src/python/pants/build_graph/target.py:422-473 | a change of any one target's own hash changes the fingerprint of everything that leads to it |
| Aliases.ViaStep | src/python/pants/core_tasks/substitute_aliased_targets.py:30-34 | a path through a set and one more target avoids that target or splits at it |
| Aliases.InjectIntoDependees | src/python/pants/core_tasks/substitute_aliased_targets.py:30-34 | fails exactly when the alias is unknown, or has a dependee and an unknown dependency; otherwise exactly the edges from its dependees to its dependencies are added |
| Aliases.Hotwire | src/python/pants/core_tasks/substitute_aliased_targets.py:18-21 | afterwards one target depends on another exactly when there was a path between them whose inner targets are processed aliases, on every graph; fails exactly when the graph before the loop has an unknown alias, or one with a dependee and an unknown dependency |
| Aliases.InjectableStable | src/python/pants/core_tasks/substitute_aliased_targets.py:30-34 | processing aliases that can be processed changes for no target whether it can be |
| Aliases.OrderIrrelevant | src/python/pants/core_tasks/substitute_aliased_targets.py:20-21 | the result does not depend on the order of the aliases |
| Aliases.BypassKeepsReach | src/python/pants/core_tasks/substitute_aliased_targets.py:18-21 | reachability and acyclicity are unchanged |
| Aliases.ExpandExact | src/python/pants/core_tasks/substitute_aliased_targets.py:36-43 | if no alias the target leads to through aliases leads back to itself, its expansion lists exactly the non-aliases reached through aliases only |
| Aliases.ExpandFails | src/python/pants/core_tasks/substitute_aliased_targets.py:36-43 | such an expansion fails only if the target stands for one that is not in the graph |
| Aliases.ExpandOrder | src/python/pants/core_tasks/substitute_aliased_targets.py:36-43 | an alias expands to what its dependencies expand to, in their order |
| Aliases.SubstituteRoots | src/python/pants/core_tasks/substitute_aliased_targets.py:23-28 | if no alias a root leads to through aliases leads back to itself, the new roots are exactly what the old ones stand for, none an alias, listed root by root; fails exactly when one is not in the graph |
| Aliases.ViaInPlay | src/python/pants/core_tasks/substitute_aliased_targets.py:18-21 | aliases on a path from a target in play are in play, so the query misses none that matters |
| Aliases.Execute | src/python/pants/core_tasks/substitute_aliased_targets.py:11-21 | the whole task: the roots become what they stand for, one target then depends on another exactly when there was a path between them through aliases in play, so every target in play depends directly on exactly what it depended on through aliases only; reachability is unchanged, dependencies are only added, and no wrong list stays cached; fails exactly when a root stands for, or the targets in play need, an unknown target |
| Aliases.BypassMemos | src/python/pants/core_tasks/substitute_aliased_targets.py:18-34 | the fingerprints memoized before the substitution stay exact, for every hash function, exactly when no target with a transitive memo leads to one that got a new dependency from an alias and none with a direct memo got one |
| Hydration.SubstTransfers | src/python/pants/engine/build_files.py:130-137 | direct substitution needs the engine's answers to exactly what the first pass collects, and depends on no others |
| Hydration.Hydrator.CollectInlineDependencies | src/python/pants/engine/build_files.py:104-131 | collects the parsed inline addresses in field order, skipping dependencies; fails exactly when one cannot be parsed |
| Hydration.Hydrator.ConsumeDependencies | src/python/pants/engine/build_files.py:139-181 | given matching results from its index on, builds the direct substitution and advances the index by exactly the addresses collected |
| Hydration.Hydrate | src/python/pants/engine/build_files.py:102-181 | the two passes equal direct recursive substitution, and on success use exactly as many results as requested |
| Erasure.SubstErases | src/python/pants/engine/build_files.py:139-181 | a hydrated struct erases to the original with its specs printed as the addresses they are read as, for every way of printing addresses; it has the path and address asked for, fields that are not addressable as they were, addresses under dependencies and elsewhere what the engine resolves them to, at every depth |
| Hydration.ReferenceHydrates | src/python/pants/engine/build_files.py:104-113 | an address written as a BUILD file refers to it, in a form without a stray colon, is replaced by what that address resolves to |
| Hydration.HydrateAddress | src/python/pants/engine/build_files.py:84-181 | with all BUILD files given and the engine hydrating every inline address the same way, the two passes compute that recursion |
| Hydration.AnswersSolve | src/python/pants/engine/build_files.py:133-137 | the recursion gives each address its struct with every inline address replaced by the answer for that address |
| Hydration.AnswerUnique | src/python/pants/engine/build_files.py:133-137 | no other assignment of answers does |
| Hydration.AnswerExactly | src/python/pants/engine/build_files.py:94-137 | an address is hydrated exactly when every struct it leads to by inline addresses exists and all specs in it can be parsed |
| Erasure.AnswerErases | src/python/pants/engine/build_files.py:84-181 | the same for what is hydrated at an address, holding the answers for the addresses it refers to |
| Contexts.RootOrder | src/python/pants/goal/context.py:338-342 | the closure of the synthetics does not depend on the order in which they are found |
| Contexts.Synthetics | src/python/pants/goal/context.py:338-341 | exactly the synthetic targets whose concrete origin is in the closure, each once |
| Contexts.UnfilteredTargets | src/python/pants/goal/context.py:329-344 | the closure of the roots in the order of the traversal, followed by what the closure of the synthetics that derive from it adds; fails exactly when an unknown target is needed |
| Contexts.ListingMembers | src/python/pants/goal/context.py:329-344 | such a list holds exactly the targets in play, each once, and starts with the closure of the roots in traversal order |
| Contexts.FilterExactly | src/python/pants/build_graph/target_scopes.py:32-55 | two settings admit the same dependencies, over all scopes a target can have, exactly when a comparison of their scope names and flags says so |
| Contexts.AlikeSame | src/python/pants/build_graph/target_scopes.py:32-55 | it is enough to compare them on scopes of one or two names, among those they mention and one they do not |
| Contexts.ServedListing | src/python/pants/goal/context.py:323-326 | a list for settings that serve others is right for those too, order included, on every graph |
| Keywords.FollowsAllowed | src/python/pants/build_graph/target.py:222-236 | a closure follows exactly the dependencies without an excluded name, with an included one if any are given, and transitive or from a root if that is to be respected, as the keywords say |
| Keywords.ListingMeans | src/python/pants/goal/context.py:329-344 | an answer is exactly what the keywords let the roots lead to, in the order they ask for, then what they let the synthetics that derive from it lead to, where that is new |
| Keywords.AnswerAllowed | src/python/pants/build_graph/target.py:222-236 | every target of an answer is a root, or synthetic, or has a dependency on it that the keywords allow |
| Contexts.Context.Targets | src/python/pants/goal/context.py:307-327 | always a fresh computation on the present graph and roots, order included, for the values of the call that filled the cache; so for the values of this call too if the former serve them; a cached list is left alone |
| Contexts.Context.AnswerMembers | src/python/pants/goal/context.py:327 | a right answer has exactly the targets in play that satisfy the predicate, each once |
| Contexts.FilterOrder | src/python/pants/goal/context.py:327 | the predicate of a query leaves the order of its answer |
| Contexts.Context.ReplaceTargets | src/python/pants/goal/context.py:255-273 | replacing the roots leaves no wrong list cached |
| Contexts.Context.AddNewTarget | src/python/pants/goal/context.py:275-305 | adding a synthetic target leaves no wrong list cached |
| CacheKeys.KeySuffices | src/python/pants/goal/context.py:323 | a list cached under the same keyword names is right for other values on every graph if their filters and traversals agree, and otherwise some graph makes every such list wrong |
| CacheKeys.TraversalsDiffer | src/python/pants/build_graph/target.py:265-278 | on one fixed graph, no list is in order for two different traversals |
| CacheKeys.QueryTwice | src/python/pants/goal/context.py:323-327 | a second query with the same keywords but other values gets the list of the first, which is wrong for it on every graph that tells the two apart |
| CacheKeys.WrongAnswer | src/python/pants/goal/context.py:307-327 | for any two calls with the same keywords whose values do not serve each other, builds a graph and a context in which the second call gets a list that is right for the first and wrong for itself |
| WorkUnits.WorkUnit.SetOutcome | src/python/pants/base/workunit.py:166-177 | refuses exactly what is no outcome; otherwise records it and restores the run's invariant |
| WorkUnits.WorkUnit.Lower | src/python/pants/base/workunit.py:175-177 | propagation that stops at the first unit already as bad still restores the invariant everywhere |
| WorkUnits.WorkUnit.constructor | src/python/pants/base/workunit.py:90-136 | a new unit joins its parent's children and keeps the invariant |
| WorkUnits.WorstOutcome | src/python/pants/base/workunit.py:166-177 | after any creations and settings, a unit's outcome is the worst of UNKNOWN and all ever set on it or a subunit |
| WorkUnits.OutcomeMeans | src/python/pants/base/workunit.py:69-75 | for each outcome, what was and was not set on the unit and its subunits |
| WorkerPools.StepValid | src/python/pants/base/worker_pool.py:86-125 | every step of any thread keeps the counter and the chains' bookkeeping exact |
| WorkerPools.RunValid | src/python/pants/base/worker_pool.py:86-125 | the same over every interleaving |
| WorkerPools.RunWorks | src/python/pants/base/worker_pool.py:86-120 | in every interleaving the pool's chains have the works they were registered with, in order |
| WorkerPools.NoEarlyStart | src/python/pants/base/worker_pool.py:111-116 | while a work runs, all invocations of earlier works of its chain have succeeded and no later one has begun |
| WorkerPools.HooksAtRest | src/python/pants/base/worker_pool.py:96-105 | a finished chain ran its hook once per failure, or once if there was none, or never if a closed pool lost its next work; it succeeded throughout exactly when it saw no failure, refusal or loss |
| WorkerPools.HookRunsOnce | src/python/pants/base/worker_pool.py:94-105 | in every interleaving in which no chain saw two failures, every finished chain ran its hook and decremented the counter exactly once |
| WorkerPools.CloseIsSafe | src/python/pants/base/worker_pool.py:164-171 | if no chain saw two failures, shutdown closes the pool only when no registered chain can still submit |
| WorkerPools.NoneLost | src/python/pants/base/worker_pool.py:111-116 | in every interleaving in which no chain saw two failures, no submission is lost to a closed pool |
| WorkerPools.TwoFailuresCloseEarly | src/python/pants/base/worker_pool.py:96-105 | from every open state in which a chain saw two failures, some run closes the pool while a chain can still submit, without a second failure in any other chain |
| WorkerPools.TwoFailuresLoseWork | src/python/pants/base/worker_pool.py:96-116 | from every such state some run loses the next work of another chain to the closed pool, without a second failure in any other chain |
| WorkerPools.SafeExactly | src/python/pants/base/worker_pool.py:164-171 | while the pool is open, that no chain saw two failures is exactly the condition under which no run that keeps to it closes the pool while a chain can still submit |
| WorkerPools.LossExactly | src/python/pants/base/worker_pool.py:111-116 | while the pool is open, that no chain saw two failures is exactly the condition under which no run that keeps to it loses work |
| WorkerPools.CloseExactly | src/python/pants/base/worker_pool.py:164-168 | with any failures, shutdown stops waiting exactly when the surplus decrements make up for the chains that are still open |
| WorkerPools.CloseUnsafeAfterTwoFailures | src/python/pants/base/worker_pool.py:96-105 | an instance: both invocations of a single work fail, after which the pool can close early and lose work |

## Left out

- `prelude` and `epilogue` callbacks of the walks, logging and warnings: the walks model the calls of `work` only.
- Alternative target roots proposed by tasks, explain mode and `skip_execution`: the run covers the tasks that execute.
- RoundManagers.RoundManager.Prepare: requirements are not registered with the products manager; only the dependency sets are modelled.
- RoundEngines.Attempt: the lock is always enabled; running with locking switched off, explain mode and alternate target roots are not modelled.
- Fingerprints.Targets.TransitiveHash: a target's own fingerprint is a function of the target, without its memo, and strategies do not override the dependencies of a target.
- ChangeDetection.FingerprintTells: the digest is taken to have no collisions; the source cuts the digest of the dependencies to twelve digits.
- ChangeDetection.DirectTells: the same.
- ChangeDetection.SameCoverage: the same.
- ChangeDetection.ChangeShows: the same.
- Strict dependencies and exports of targets: their cache is not cleared by edge injection, and they are not part of this model.
- Subproject roots in specs: addresses are parsed without them; hydration takes the parser as a parameter.
- Hydration.Hydrate: a top-level field named `address` would override the address argument, the path is passed to every type, and constructors that reject their arguments or replace the object are not modelled.
- `sorted` field order in hydration: fields are given in the order of their keys.
- KeyboardInterrupt in workers and aborting the pool: invocations return or raise.
- Aliases.SubstituteRoots: where a root leads through aliases to a cycle of aliases the source recurses until Python's limit, so such roots are excluded; all other cycles are allowed.
- Aliases.ExpandExact: the same for a single target.
- Aliases.ExpandFails: the same for a single target.
- Aliases.Execute: the same for the roots.
- WorkerPools.StepValid: closing the pool is one step. The source holds the condition's lock through `join`, so a `done` or a registration that comes then waits, and `join` waits for a worker that is in such a `done`. The model lets both go on, which only adds runs.
- Goals.Goal.Install: replacing resets `options_scope` to None on the memoized types of the replaced tasks, which the model leaves out.
- Goals.Goal.UninstallTask: likewise for the removed task.
- Parsing of BUILD files into structs: hydration starts from a map of all structs; a missing one is an error without its suggestions.
- Hydration.HydrateAddress: inline addresses that lead to a cycle, which the engine itself reports, are excluded.
- Hydration.AnswersSolve: the same.
- Hydration.AnswerUnique: the same.
- Hydration.AnswerExactly: the same.
- Splitting and lower-casing of scope names: a scope is a non-empty set of non-empty names.
- Source roots and directories created for new targets, injectables, and construction of synthetic targets from their type.
- Weak references of invalidation callbacks: a registered cache stays registered.
- Structural details of work units other than outcome, parent and children: names, labels, times and outputs.
- The engine's scheduler, rules and native code, caches, options, console tasks and help: outside the kernel.
