# Pants legacy build graph: dependency algorithms and the engine graph's test nodes

This project models, in Dafny, the dependency bookkeeping of the Pants v1
"legacy" build graph and the test oracle of the Rust engine's node graph.

- `topo_sort` orders hydrated targets so that a target comes after every
  target it depends on. It is a depth-first post-order walk from each input,
  filtered back to the input set (`topo_sort.dfy`, module `TopoSort`). As
  written, the walk recurses on dependency addresses rather than targets;
  module `TopoSortAsWritten` models that behaviour (see Findings).
- `_DependentGraph` keeps two reverse-dependency maps: dependency to its
  declared dependents, and dependency to its implicit dependents.
  `from_iterable` builds one from target adaptors. `_validate` checks that
  every declared dependency names an existing target.
  `dependents_of_addresses` answers direct-dependent queries, and
  `transitive_dependents_of_addresses` transitive ones (`dependent_graph.dfy`).
- `LegacyBuildGraph._index_target` stores a target and links its declared
  dependencies forward and backward. A dependency listed twice is a
  `DuplicateAddressError` (`build_graph_index.dfy`).
- `transitive_hydrated_targets` flattens the transitive-dependency trees of
  the requested roots into one duplicate-free closure, breadth first
  (`hydrated_closure.dfy`).
- `OwnersRequest.validate` refuses `--owner-of` arguments that contain a
  comma or a glob (`owners_request.dfy`).
- In the engine's graph tests, a `TNode(n)` produces a path of tokens
  `T(node id, context id)`. It asks `TContext::dependency_of` for the node it
  depends on and appends its own token. `TNode::validate` checks a path
  (`tnode.dfy`).

Shared vocabulary lives in `collections.dfy`:
- duplicate-freedom;
- the element set of a sequence;
- `OrderedSet` insertion;
- reading and updating a `defaultdict(set)`;
- iterating over a Python `set`.

`addresses.dfy` holds `Address` and `TargetAdaptor`. `wrappers.dfy` holds `Option`, `Result` and `Outcome`. A Python `raise` or a
Rust `Err` is a `Failure`/`Fail` value.

Mutable Python objects are Dafny classes whose dict fields are `map`s:
- `_DependentGraph` is `DependentGraphs.DependentGraph`;
- `LegacyBuildGraph` is `BuildGraphIndex.LegacyBuildGraph`.

Loops of the source are `while`/`for` loops with their invariants. The
recursion of `topo_sort` is a recursive method carrying a ghost stack of the
targets in progress. The closure walks carry ghost sets of what was processed.

## Model

Source paths are relative to the repository root.
`graph.py` is `src/python/pants/engine/legacy/graph.py`.
`tests.rs` is `src/rust/engine/graph/src/tests.rs`.

| member | source | states |
|---|---|---|
| TopoSort.TopoSort | src/python/pants/engine/legacy/graph.py:547-566 | The result holds exactly the input targets, each once. When the dependency map has no cycle, a target comes after every result target it reaches through any chain of dependencies, even a chain through walked targets that the final filter drops. In particular it follows each of its direct dependencies ("if B depends on A, B follows A"; "least to most dependent"). |
| TopoSort.Visit | src/python/pants/engine/legacy/graph.py:552-558 | `recursive_topo_sort` leaves `ht` visited and only grows `visited` and `res`. It keeps the walk state: `visited` is the finished targets plus the targets in progress, the finished ones are duplicate-free, and on an acyclic map each finished target follows all of its dependencies. |
| TopoSort.KeepOnly | src/python/pants/engine/legacy/graph.py:563-566 | The filter keeps exactly the elements that are in the input set. They stay in their order in `res`: the result is a subsequence of it. A duplicate-free sequence stays duplicate-free. |
| TopoSort.KeepOnlyKeepsReachFirst | src/python/pants/engine/legacy/graph.py:563-566 | Filtering by the input set keeps the order "every target follows whatever it reaches", for any set. |
| TopoSort.KeepOnlyAll | src/python/pants/engine/legacy/graph.py:563-566 | When every element is an input, the filter returns `res` unchanged. |
| TopoSort.FinishedReachesEarlier | src/python/pants/engine/legacy/graph.py:552-558 | In a sequence built as the walk appends, each target after its dependencies, every target reachable from position `i` lies before `i`. |
| TopoSort.FinishedIsReachFirst | src/python/pants/engine/legacy/graph.py:552-561 | The walk's duplicate-free `res` puts every target after all the targets it reaches. |
| TopoSort.ReachFirstHasDepsFirst | src/python/pants/engine/legacy/graph.py:548 | The reach order implies the direct one: each target follows its dependencies in the sequence. |
| TopoSort.FinishStep | src/python/pants/engine/legacy/graph.py:556-558 | Appending a target to `res` after walking its dependencies keeps the walk state. On an acyclic map, every dependency is by then already in `res`. |
| TopoSort.PushStep | src/python/pants/engine/legacy/graph.py:553-555 | Marking an unvisited target visited and starting its walk keeps the walk state. |
| TopoSort.BackEdgeIsCycle | src/python/pants/engine/legacy/graph.py:553-557 | A dependency that is still being walked closes a dependency cycle. So on an acyclic map the `visited` short-cut never skips an unfinished target. |
| TopoSortAsWritten.Outcome | src/python/pants/engine/legacy/graph.py:547-566 | What `topo_sort` gives as written, when `dependencies` holds addresses. It succeeds exactly when no input has a dependency, and then returns the inputs once each. Otherwise it raises the `AttributeError` for the first dependency of the first input that has one. |
| TopoSortAsWritten.Visit | src/python/pants/engine/legacy/graph.py:552-558 | `recursive_topo_sort` as written. A visited item changes nothing. An address raises. A target with dependencies raises for its first dependency address. A target without dependencies is marked and appended. |
| TopoSortAsWritten.VisitInput | src/python/pants/engine/legacy/graph.py:560-561 | Walking one input from the loop: an input without dependencies is inserted into `res` once; one with dependencies raises for its first dependency. |
| TopoSortAsWritten.TopoSort | src/python/pants/engine/legacy/graph.py:547-566 | The as-written walk returns exactly `Outcome(targets)`. |
| TopoSortAsWritten.AddressWalkExample | src/python/pants/engine/legacy/graph.py:556-557 | Target 1 depending on the address of target 2, followed by target 2, raises `AttributeError` for address 2 instead of returning an order. |
| TopoSortAsWritten.ResolvedWalkExample | src/python/pants/engine/legacy/graph.py:548 | For the same two targets with the dependency resolved to the target, the only dependency-first order of both is target 2, then target 1. |
| Collections.Insert | src/python/pants/engine/legacy/graph.py:342-345 | `OrderedSet.add` extends the sequence, adds exactly `x`, and keeps it duplicate-free. |
| Collections.InsertAll | src/python/pants/engine/legacy/graph.py:344-345 | `OrderedSet.update` keeps the old sequence in front. It appends exactly the given elements that were missing, each once, in the order of their first occurrence in the argument. A duplicate-free sequence stays duplicate-free. |
| Collections.Dedup | src/python/pants/engine/legacy/graph.py:342 | `OrderedSet(addresses)` holds each input once and nothing else, in the order of first occurrence in the input. |
| Collections.InsertAllConcat | src/python/pants/engine/legacy/graph.py:344-345 | Two `update` calls in turn equal one `update` with the concatenation. |
| Collections.DedupFirstOutside | src/python/pants/engine/legacy/graph.py:317-319 | Suppose every element before position `k` of an `OrderedSet` lies in a set. Then the `k`-th element has a first occurrence in the input, and everything before that occurrence lies in the set. |
| Collections.DedupOfDistinct | src/python/pants/engine/legacy/graph.py:342 | An `OrderedSet` built from distinct elements keeps their order unchanged. |
| Collections.Lookup | src/python/pants/engine/legacy/graph.py:344-345 | Reading a `defaultdict(set)` gives the stored set, or the empty set for a missing key. |
| Collections.Add | src/python/pants/engine/legacy/graph.py:336 | `m[k].add(v)` joins `v` to the set under `k`, leaves every other key's set unchanged, and makes `k` a key. |
| Collections.AddedUnderTrans | src/python/pants/engine/legacy/graph.py:335-338 | Adding `v` under one set of keys and then another equals adding it under their union. This is what the injection loops accumulate. |
| Collections.AddedAtTrans | src/python/pants/engine/legacy/graph.py:161-163 | Adding values to one key twice equals adding their union. This is what the linking loop accumulates. |
| Collections.Enumerate | src/python/pants/engine/legacy/graph.py:361-362 | Iterating a set yields each of its elements exactly once. |
| Collections.InsertEach | src/python/pants/engine/legacy/graph.py:344-345 | `OrderedSet.update` with a set keeps the old sequence in front, adds exactly the set's elements, and stays duplicate-free. |
| DependentGraphs.AddressesOf | src/python/pants/engine/legacy/graph.py:297-300 | `all_valid_addresses` is exactly the set of the adaptors' addresses. |
| DependentGraphs.DeclaredMentionsSpec | src/python/pants/engine/legacy/graph.py:296-299 | An address occurs among the adaptors' declared dependencies, taken in `from_iterable`'s order, exactly when some adaptor declares it. |
| DependentGraphs.FirstMissingIsFirstMentioned | src/python/pants/engine/legacy/graph.py:317-319 | The first key of the declared map, in insertion order, that is not a valid address is the first declared dependency, in order of mention, that is not valid. |
| DependentGraphs.DeclaredDependentsSpec | src/python/pants/engine/legacy/graph.py:335-336 | After injection, `a` is a declared dependent of `d` exactly when some adaptor at address `a` lists `d` among its dependencies. |
| DependentGraphs.HasDeclaredDependents | src/python/pants/engine/legacy/graph.py:317 | An address is a key of the declared map exactly when some adaptor depends on it. These are the dependencies `_validate` checks. |
| DependentGraphs.AddDependent | src/python/pants/engine/legacy/graph.py:335-336 | The declared-dependency loop adds the target's address under each of its dependencies and nothing else. The keys gain exactly those dependencies. The dict's key order gains the new keys in order of first mention, exactly as `OrderedSet.update` would, and still lists every key once. |
| DependentGraphs.DependentGraph.constructor | src/python/pants/engine/legacy/graph.py:304-311 | Both reverse maps start empty, and so does the declared map's key order. |
| DependentGraphs.DependentGraph.InjectTarget | src/python/pants/engine/legacy/graph.py:326-338 | `_inject_target` adds the adaptor's address under each declared dependency in the declared map and under each implicit dependency in the implicit map. The new declared keys join the key order in order of first mention. No other entry changes. |
| DependentGraphs.DependentGraph.InjectDeclared | src/python/pants/engine/legacy/graph.py:335-336 | The declared loop changes only the declared map and its key order, as `AddDependent` states, with new keys in order of first mention. |
| DependentGraphs.DependentGraph.InjectImplicit | src/python/pants/engine/legacy/graph.py:337-338 | The implicit loop adds the address under each implicit dependency and changes nothing else. |
| DependentGraphs.DependentGraph.Validate | src/python/pants/engine/legacy/graph.py:315-324 | `_validate` passes exactly when every key of the declared map is a valid address. On failure it reports the first invalid key in the dict's order, with that key's dependents. |
| DependentGraphs.DependentGraph.DependentsOfAddresses | src/python/pants/engine/legacy/graph.py:340-346 | The result is duplicate-free. It starts with the de-duplicated inputs in order. Its elements are exactly the inputs and their direct (declared or implicit) dependents. |
| DependentGraphs.DependentGraph.InsertDirectDependents | src/python/pants/engine/legacy/graph.py:344-345 | One turn of the query loop keeps the result so far in front and adds exactly the declared and implicit dependents of the address. The result stays duplicate-free. |
| DependentGraphs.DependentGraph.VisitHead | src/python/pants/engine/legacy/graph.py:355-362 | Visiting the head of the queue and queueing its dependents keeps the walk state: every dependent of a visited address is visited or queued, and every queued address is an input or a dependent of a visited one. |
| DependentGraphs.DependentGraph.SkipVisited | src/python/pants/engine/legacy/graph.py:355-357 | Dropping an already visited address from the queue keeps that walk state. |
| DependentGraphs.DependentGraph.ReachedAppend | src/python/pants/engine/legacy/graph.py:359-360 | Appending an input, or a dependent of an earlier entry, keeps every entry of the result justified. |
| DependentGraphs.DependentGraph.TransitiveDependentsOfAddresses | src/python/pants/engine/legacy/graph.py:348-364 | The result lists each address once and contains every input. It is closed under taking direct dependents. Each entry is an input or a direct dependent of an earlier entry. So it is exactly the transitive dependents, in visiting order. |
| DependentGraphs.DependentGraph.InjectAll | src/python/pants/engine/legacy/graph.py:293-300 | After the loop of `from_iterable`, the graph is new and valid. The address set is exactly the adaptors' addresses. Both maps hold exactly the declared and implicit dependents. The key order is the declared dependencies in order of first mention. |
| DependentGraphs.DependentGraph.FromIterable | src/python/pants/engine/legacy/graph.py:293-302 | Construction succeeds exactly when every declared dependency is the address of some adaptor. On success, the maps hold exactly the declared and implicit dependents. On failure, the error names the first declared dependency, in order of mention across the adaptors, that is not an adaptor's address, with its non-empty set of dependents. |
| BuildGraphIndex.FirstDuplicate | src/python/pants/engine/legacy/graph.py:154-160 | The index where the loop raises is the first dependency that was linked before the call or occurs earlier in the list; it is the length of the list when there is none. |
| BuildGraphIndex.NoDuplicateIffDistinct | src/python/pants/engine/legacy/graph.py:154-160 | Indexing raises no `DuplicateAddressError` exactly when the dependencies are distinct and none was already linked from the address. |
| BuildGraphIndex.FirstDuplicateStep | src/python/pants/engine/legacy/graph.py:155 | Up to the first duplicate, the membership test at position `i` succeeds exactly at the first duplicate. |
| BuildGraphIndex.LegacyBuildGraph.constructor | src/python/pants/engine/legacy/graph.py:90-98 | The target map and both dependency maps start empty. |
| BuildGraphIndex.LegacyBuildGraph.Link | src/python/pants/engine/legacy/graph.py:161-163 | Linking adds the dependency under the address in the forward map and the address under the dependency in the backward map. It keeps the two maps describing the same edges. |
| BuildGraphIndex.LegacyBuildGraph.LinkNext | src/python/pants/engine/legacy/graph.py:161-163 | One turn of the linking loop links one more dependency that is not a duplicate. The two maps then hold exactly the first `i + 1` dependencies linked from the address, and they still agree. |
| BuildGraphIndex.LegacyBuildGraph.LinkDependencies | src/python/pants/engine/legacy/graph.py:154-163 | The loop links exactly the dependencies before the first duplicate and stops there. The two maps still agree. |
| BuildGraphIndex.LegacyBuildGraph.IndexTarget | src/python/pants/engine/legacy/graph.py:147-164 | The target is stored under its address. The call succeeds with the target exactly when no dependency is a duplicate. Otherwise it fails naming the first duplicate and the address, keeping the links made before it. On success, every dependency is linked in both directions. |
| HydratedClosure.TransitiveHydratedTargetsOf | src/python/pants/engine/legacy/graph.py:523-533 | The roots are the requested roots in order. The closure is duplicate-free, contains every requested root, and holds only roots of nodes in the trees. When trees for the same target are shared, it holds exactly the roots of all nodes in the trees. |
| HydratedClosure.Roots | src/python/pants/engine/legacy/graph.py:533 | The `roots` field lists the root of each requested tree, in order. |
| HydratedClosure.SkipStep | src/python/pants/engine/legacy/graph.py:527-529 | Skipping a tree whose root is already collected keeps the walk state. |
| HydratedClosure.VisitStep | src/python/pants/engine/legacy/graph.py:527-531 | Collecting a new root and queueing its dependency trees keeps the walk state: the closure lists the processed roots once each, and every child of a processed node is collected or queued. |
| HydratedClosure.Covered | src/python/pants/engine/legacy/graph.py:528-531 | With shared trees, every node below a processed node was processed once the queue is empty. |
| HydratedClosure.RootCollected | src/python/pants/engine/legacy/graph.py:526-531 | Once the queue is empty, with shared trees, the root of every node of a requested tree has been collected. |
| HydratedClosure.Complete | src/python/pants/engine/legacy/graph.py:523-533 | With shared trees, the final closure is exactly the set of roots of all nodes in the trees. |
| HydratedClosure.SizeAllConcat | src/python/pants/engine/legacy/graph.py:531 | The number of nodes queued adds up over `extend`. Popping a tree and queueing its children therefore shrinks the queue measure. |
| OwnersRequests.SourcesContaining | src/python/pants/engine/legacy/graph.py:449 | The filter holds exactly the arguments that contain the character. It is empty exactly when no argument does. |
| OwnersRequests.SourcesContainingIsSubsequence | src/python/pants/engine/legacy/graph.py:449 | The offenders keep the arguments' order. |
| OwnersRequests.Validate | src/python/pants/engine/legacy/graph.py:446-467 | The arguments pass exactly when none has a comma or a glob. A comma anywhere gives the comma error, naming exactly the arguments with commas. Otherwise a glob gives the glob error, naming exactly the arguments with globs. |
| GraphTestNodes.AsIsize | src/rust/engine/graph/src/tests.rs:456-461 | `node_id as isize` keeps values below 2^63 and turns larger ones negative. |
| GraphTestNodes.Validate | src/rust/engine/graph/src/tests.rs:455-484 | `validate` succeeds exactly when the node ids are 0, 1, 2, ... and the context ids never decrease. The node error is given exactly when the node ids are wrong. The context error is given exactly when only the context ids are wrong. On success it returns the number of distinct context ids, at most the path's length. |
| GraphTestNodes.ContextIdsBounds | src/rust/engine/graph/src/tests.rs:483 | A path has no more distinct context ids than tokens, and at least one when it is non-empty. |
| GraphTestNodes.DependencyOf | src/rust/engine/graph/src/tests.rs:595-602 | An explicit edge wins, and an edge to `None` means no dependency. Otherwise `TNode(n)` depends on `TNode(n - 1)`, and `TNode(0)` on nothing. |
| GraphTestNodes.Run | src/rust/engine/graph/src/tests.rs:408-423 | A run's path ends with the node's own token and carries the context's id throughout. It is the lone token when the node has no dependency, and longer otherwise. |
| GraphTestNodes.RunFuelMonotone | src/rust/engine/graph/src/tests.rs:408-423 | A path reached within some bound on the dependency chain is the same under any larger bound. So the bound does not change the modelled result. |
| GraphTestNodes.RunWithoutOverrides | src/rust/engine/graph/src/tests.rs:595-602 | With no edge overrides, `TNode(n)` yields the chain `T(0, c), ..., T(n, c)`. |
| GraphTestNodes.Chain | src/rust/engine/graph/src/tests.rs:20-26 | The chain has `n + 1` tokens, and the token at position `i` is `T(i, c)`. |
| GraphTestNodes.ChainIsValid | src/rust/engine/graph/src/tests.rs:455-484 | `validate` accepts every such chain and counts one context. |
| GraphTestNodes.CreateExample | src/rust/engine/graph/src/tests.rs:20-26 | `TNode(2)` in context 0 yields `[T(0,0), T(1,0), T(2,0)]`. |
| GraphTestNodes.TruncatedExample | src/rust/engine/graph/src/tests.rs:110-118 | With `TNode(1)` mapped to no dependency, `TNode(2)` yields `[T(1,0), T(2,0)]`, which `validate` rejects for its node ids. |
| GraphTestNodes.ReversedPathExample | src/rust/engine/graph/src/tests.rs:271-288 | In context 1, with the path reversed, `TNode(0)` yields `[T(1,1), T(0,1)]` and `TNode(2)` yields `[T(1,1), T(2,1)]`. |
| GraphTestNodes.ValidExamples | src/rust/engine/graph/src/tests.rs:445-447 | The two documented valid paths pass both checks, with 4 and 2 distinct contexts. |
| GraphTestNodes.InvalidExamples | src/rust/engine/graph/src/tests.rs:449-451 | Of the documented invalid paths, the first fails only the context check and the second fails the node check. |

## Findings

| source | as written | input that shows it | evidently intended | confidence | as-written member | corrected member |
|---|---|---|---|---|---|---|
| src/python/pants/engine/legacy/graph.py:556-557 | `recursive_topo_sort(dep)` recurses on each entry of `ht.dependencies`, which are addresses (graph.py:595-597). The address is marked visited and then its `dependencies` attribute is read. | Targets `(A, B)` where `A.dependencies == (B's address,)` and B has no dependencies: the walk raises `AttributeError` instead of returning `(B, A)`. | Resolve each dependency address to its target and return a dependency-first order (graph.py:548, 424-427); for this input that order can only be `(B, A)` (`TopoSortAsWritten.ResolvedWalkExample`). | medium, not executed | TopoSortAsWritten.AddressWalkExample | TopoSort.TopoSort |

## Left out

- TopoSort.TopoSort: models the order `topo_sort`'s docstring promises, not the walk as written (see Findings).
  - It takes targets of any type with equality, and each target's dependencies as targets, through a finite map. A target missing from the map has no dependencies.
  - As written, `HydratedTarget.dependencies` holds addresses (graph.py:595-597), so the walk recurses on an address. `TopoSortAsWritten` models that.
  - Python's recursion limit is not modelled: a long enough dependency chain raises `RecursionError` in the source.
- TopoSortAsWritten.HydratedTarget: keeps the address and the dependency addresses. The hydrated adaptor is not modelled, because the walk never reads it.
  - Address objects are not part of this model. That they lack a `dependencies` attribute is taken from their definition, which is outside it.
- `defaultdict` reads: a read of a missing key inserts an empty set in Python; the model reads without inserting.
  - This applies to `dependents_of_addresses`, `transitive_dependents_of_addresses` and `_target_dependencies_by_address[address]`.
  - No modelled operation can observe the difference: `_validate` runs only inside `from_iterable`, before any query.
- Set iteration order: Python's iteration order over a `set` is left open. `Collections.Enumerate` picks some order, and every contract holds for every order.
- Input types: `dependents_of_addresses` and `transitive_dependents_of_addresses` take a sequence of addresses rather than any iterable.
  - A one-shot generator passed to `dependents_of_addresses` would be used up by `OrderedSet(addresses)`, leaving the second loop empty.
  - The model covers re-iterable inputs only.
- `_inject_target` takes the implicit dependencies as given data. Not modelled:
  - the lookup of `target_cls` in `_target_types`, and its `KeyError` for an unknown alias;
  - `compute_dependency_address_specs`;
  - `Address.parse` with subproject roots.
- `_index_target` takes the instantiated target as a parameter; `_instantiate_target` is not part of this model.
  - The `BuildGraph` base class is not part of this model either: its maps are taken to start empty.
  - The scheduler and target types held by `__init__` are not modelled.
- `transitive_hydrated_targets` takes the trees as given. The `MultiGet` that builds them and the engine's memoisation are not modelled.
  - The engine's sharing of one tree per address is stated as the `Consistent` hypothesis.
- GraphTestNodes.Run: takes a bound on the length of the dependency chain and yields `None` beyond it.
  - The engine graph's cycle detection, which turns a cyclic request into an error, is not part of this model.
  - The graph's memoisation, invalidation, dirtying, cleaning and run counting are not modelled.
  - `TContext` is reduced to its id and edge overrides: delays, the run log and the graph handle are left out.
- GraphTestNodes.Validate: requires a path shorter than 2^63 tokens, which a Rust `Vec` guarantees.
  - Under that bound the `previous + 1` of the node loop never overflows `isize`, so the overflow case is not modelled.
- Error messages: their text is not modelled. This includes the `pants_bin_name` hint and the rendered offender list of `InvalidOwnersOfArgs`.
  - Each error keeps the data it reports: the missing dependency and its dependents, the duplicate and its target, the offending arguments.
- Other repository parts: not part of this model.
  - the scheduler and engine plumbing, and the async rules of the legacy graph;
  - the other graph tests (concurrency, timing, memoisation, `critical_path`);
  - the address-spec parser and the IDEA project exporter with its integration test;
  - the bandit subsystem and the C++ target.
