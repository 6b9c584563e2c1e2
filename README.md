# Consent-flow edge removal and privacy metrics, in Dafny

This project models the algorithmic core of a consent-management study. A
web site's consent flow is a directed graph: pages, consent dialogs
(BannerToast, LetMeChoose, Modal), consent buttons (AcceptAll, Decline,
Save, AcceptSelected, `Acc*` toggles) and the services they unlock
(`...Svc`). Every edge carries an integer `cost` and `capacity`, both 1 by
default. The code under study does three things:

- It removes edges so that no service can be reached through consent.
  - `apply_on_dot.py` has heuristics over the consent→service edges: remove
    them all, in random order, one per service, or by a product search.
  - `compare_algos_dot.py` and `konstantin_adapter.py` have strategies over
    start→service constraint pairs: random path breaking, the first edge of
    a shortest path, a union of minimum cuts, a greedy multi-cut and a
    bounded brute-force minimum hitting set.
- It measures a flow (`batch_run.py`): the cheapest cost-weighted path from a
  start page to the decision node, the cost of accepting everything, of
  declining and of accepting a selection, and four verdicts (accept-all
  blocked, decline available, dark pattern, privacy acceptable).
- It rewrites a DOT flow (`consent_optimize.py`). It completes the backbone
  BannerToast → LetMeChoose → Modal → Save, cuts every shortcut out of
  AcceptAll, lets Save unlock only the required service, and counts the
  clicks before and after.

The modules follow those files:

- `ApplyOnDot`, `CompareAlgos`, `KonstantinAdapter`, `BatchRun` and
  `ConsentOptimize` model the five source files.
- `Graphs` models the networkx `DiGraph` the strategies work on. It is a
  class with a node list, an edge list in adjacency order and an attribute
  map.
- `Paths` defines paths and reachability over an edge set. It computes
  reachability and hop distance (`has_path`, `descendants`,
  `shortest_path_length`) with verified fixpoint and breadth-first layers.
- `Oracles` states what the code relies on from the networkx primitives it
  does not reimplement (`shortest_path`, `minimum_edge_cut`, `minimum_cut`,
  weighted `shortest_path_length`). Each one is a function parameter
  together with a validity predicate.
- `Itertools` models `itertools.combinations` and `itertools.product` in
  their enumeration order.
- `Sorting` models Python's `sorted` on strings and string pairs.
- `Strings` models `strip`, `lower`, `startswith`, `endswith` and `str(int)`.
- `Basics` holds Option/Result and sequence helpers.

Randomness is a parameter `draws: nat -> nat`: the i-th `rng.choice` or
`randrange(n)` is the i-th draw modulo n. Every raised exception is an
`Err` value of a `Result`.

Two behaviours of the code are modelled as written:

- The bounded brute force has no separate "no solution within bound"
  outcome. It returns the empty set (`compare_algos_dot.py`) or the min-cut
  union (`konstantin_adapter.py`).
- The comparison runner's search starts at size 1, even when the pairs are
  already cut; see Findings.

## Model

| member | source | states |
|---|---|---|
| ApplyOnDot.DetectServices | Tools/code/Algorithm/apply_on_dot.py:20-21 | exactly the graph nodes whose name ends in "Svc", in sorted order; strictly increasing when the node list has no repeats |
| ApplyOnDot.DetectConsentSources | Tools/code/Algorithm/apply_on_dot.py:23-30 | a node is included iff it is "AcceptAll", "Save" or starts with "Acc"; strictly increasing, so duplicate-free |
| ApplyOnDot.ConsentEdges | Tools/code/Algorithm/apply_on_dot.py:32-38 | exactly the graph edges from a consent source into a service, strictly increasing and duplicate-free |
| ApplyOnDot.AlgRemoveFirst | Tools/code/Algorithm/apply_on_dot.py:106-108 | the same edges as `consent_edges`, in increasing order |
| ApplyOnDot.AlgRemoveRandom | Tools/code/Algorithm/apply_on_dot.py:91-104 | for any draws, the loop ends and every copy of every consent edge is removed exactly once, and nothing else |
| ApplyOnDot.DrawPresent | Tools/code/Algorithm/apply_on_dot.py:98-101 | the filtered list holds exactly the candidates still present; the pick is the drawn element and is present; no pick iff the list is empty |
| ApplyOnDot.AllCopiesRemoved | Tools/code/Algorithm/apply_on_dot.py:97-104 | once the remaining multigraph has no consent edge, the removed list holds each consent edge as often as G does |
| ApplyOnDot.RemoveRandomPermutation | Tools/code/Algorithm/apply_on_dot.py:91-104 | on a graph without parallel edges the removal order is a permutation of `consent_edges` |
| ApplyOnDot.Score | Tools/code/Algorithm/apply_on_dot.py:112-117 | AcceptAll scores 0, Save 1, other "Acc" names 2 and everything else 3 |
| ApplyOnDot.FirstMinIndex | Tools/code/Algorithm/apply_on_dot.py:118-119 | the position of an edge with the least source score, and no earlier edge has that score (stable sort) |
| ApplyOnDot.ChooseOneIncoming | Tools/code/Algorithm/apply_on_dot.py:110-119 | None iff the list is empty; otherwise the earliest edge whose source has the least score |
| ApplyOnDot.Into | Tools/code/Algorithm/apply_on_dot.py:126-127 | exactly the edges of the list entering v; duplicate-free when the list is |
| ApplyOnDot.GroupByTarget | Tools/code/Algorithm/apply_on_dot.py:125-127 | the `by_svc` dictionary: keys are exactly the targets with an edge, listed without repeats, and each list is the edges entering its key |
| ApplyOnDot.GroupStep | Tools/code/Algorithm/apply_on_dot.py:127 | appending one edge to its target's list turns the dictionary of a prefix into that of the next prefix |
| ApplyOnDot.PickEntersTarget | Tools/code/Algorithm/apply_on_dot.py:128-131 | every target with an entering consent edge has a pick, and the pick enters that target |
| ApplyOnDot.AlgMinCutLike | Tools/code/Algorithm/apply_on_dot.py:121-132 | increasing list whose members are exactly the per-service picks of `choose_one_incoming` |
| ApplyOnDot.OnePerService | Tools/code/Algorithm/apply_on_dot.py:121-132 | the picks are consent edges, one for each service that has an incoming one and never two for the same service |
| ApplyOnDot.AlgMinmcGreedy | Tools/code/Algorithm/apply_on_dot.py:134-137 | the same result as `alg_min_cut_like` |
| ApplyOnDot.TargetsCard | Tools/code/Algorithm/apply_on_dot.py:146-147 | a set of edges enters at most as many targets as it has edges, and exactly as many when no two share a target |
| ApplyOnDot.HittingLowerBound | Tools/code/Algorithm/apply_on_dot.py:146-147 | a set that cuts one incoming edge of every service that has one has at least as many edges as there are such services |
| ApplyOnDot.AlgBruteforce | Tools/code/Algorithm/apply_on_dot.py:139-166 | when kmax is below the number of services, the `alg_min_cut_like` picks; otherwise the first consent edge into each service that has one; increasing in both cases |
| ApplyOnDot.ProductSearch | Tools/code/Algorithm/apply_on_dot.py:154-166 | the result of the product search is exactly the first incoming consent edge of each service that has one, in increasing order |
| ApplyOnDot.ServiceChoices | Tools/code/Algorithm/apply_on_dot.py:154-160 | the services with incoming consent edges, in the order of `services`, each contributing its non-empty list of entering edges |
| ApplyOnDot.LeastCombination | Tools/code/Algorithm/apply_on_dot.py:161-166 | over the whole product, the strict `<` keeps the first combination, the first edge of each list |
| ApplyOnDot.FirstsAreFirstInto | Tools/code/Algorithm/apply_on_dot.py:161-163 | the first combination holds exactly the first incoming consent edge of each service that has one |
| ApplyOnDot.ProductLowerBound | Tools/code/Algorithm/apply_on_dot.py:161-165 | no combination of the product has fewer distinct edges than the first, so `best` never changes after it |
| ApplyOnDot.FirstsDistinctTargets | Tools/code/Algorithm/apply_on_dot.py:162-163 | no two edges of the first combination enter the same service |
| ApplyOnDot.FirstsTargetsCovered | Tools/code/Algorithm/apply_on_dot.py:162-165 | every combination enters every service the first combination enters |
| CompareAlgos.AutodetectSets | Tools/code/Algorithm/compare_algos_dot.py:46-54 | starts are the default pages present, in `G.nodes` order, or else the nodes with an outgoing edge and an upper-case initial, in `G.nodes` order; services are the default services present, or else the "...Svc" nodes, in `G.nodes` order; IndexError exactly when the fallback meets an empty name with an outgoing edge |
| CompareAlgos.BuildConstraints | Tools/code/Algorithm/compare_algos_dot.py:56-58 | a pair is listed iff its start is a start, its target a service and both are nodes; at most starts × services pairs |
| CompareAlgos.BuildConstraintsRows | Tools/code/Algorithm/compare_algos_dot.py:56-58 | the list is start-major: the rows of the starts joined in start order, repeated starts and services giving repeated pairs |
| CompareAlgos.ConstraintRow | Tools/code/Algorithm/compare_algos_dot.py:58 | the row of one start: position by position, the start paired with each service that is a node, in service order with repeats; empty when the start is not a node |
| CompareAlgos.FirstReachable | Tools/code/Algorithm/compare_algos_dot.py:61-68 | None iff no constraint's target is reachable; otherwise the first such constraint in list order |
| CompareAlgos.AnyReachablePair | Tools/code/Algorithm/compare_algos_dot.py:61-68 | the loop over `has_path` returns the first reachable constraint, or None |
| CompareAlgos.RemoveRandomEdge | Tools/code/Algorithm/compare_algos_dot.py:72-91 | for any draws the loop ends; the removed edges are edges of G and are exactly those the first n rounds of `Replay` draw for some n, each round taking the drawn edge on what the earlier rounds left; afterwards no pair is reachable or the first reachable pair is a node and itself |
| CompareAlgos.RandomRounds | Tools/code/Algorithm/compare_algos_dot.py:75-90 | the same loop on the edge set of the copy: it ends, and what it removed is a replay of the draws after which nothing is left to draw |
| CompareAlgos.DrawPathEdge | Tools/code/Algorithm/compare_algos_dot.py:77-87 | one round yields exactly `DrawnEdge`: the edge at position draw modulo the edge count of the oracle's shortest path for the first reachable pair; nothing exactly when there is no such pair or it is a node and itself |
| CompareAlgos.DrawnEdgeFacts | Tools/code/Algorithm/compare_algos_dot.py:77-87 | a round draws an edge iff the first reachable pair has two distinct nodes; the edge is a step of that pair's shortest path, which is a path of H, so it is an edge of H |
| CompareAlgos.ReplayStops | Tools/code/Algorithm/compare_algos_dot.py:77-78 | once no pair is reachable or the first reachable pair is a node and itself, no later round removes anything, so the removed set is the same for every longer run |
| CompareAlgos.RemoveFirstEdge | Tools/code/Algorithm/compare_algos_dot.py:93-104 | the removed set is exactly the first edge of the oracle's shortest path for each pair of distinct nodes with a path; each such edge leaves the pair's start and still reaches its target |
| CompareAlgos.FirstEdgeOnPath | Tools/code/Algorithm/compare_algos_dot.py:101-102 | the first edge of a path is an edge leaving its start, from which the end is still reachable |
| CompareAlgos.RemoveMinCutUnion | Tools/code/Algorithm/compare_algos_dot.py:106-115 | exactly the union of the cuts of the pairs whose cut call does not raise; a subset of G's edges; every removed edge comes from a pair that has a path, so a pair without one adds nothing |
| CompareAlgos.MinCutUnionDisconnects | Tools/code/Algorithm/compare_algos_dot.py:106-115 | removing that union disconnects every pair of two distinct nodes of the graph |
| CompareAlgos.Bump | Tools/code/Algorithm/compare_algos_dot.py:133 | `freq.get(e, 0) + 1`: e's count goes up by one, the others stay, a new key is added |
| CompareAlgos.MaxIndex | Tools/code/Algorithm/compare_algos_dot.py:148 | the first key, in insertion order, of greatest count |
| CompareAlgos.MostFrequent | Tools/code/Algorithm/compare_algos_dot.py:148 | a key whose count is at least every other key's |
| CompareAlgos.CutCount | Tools/code/Algorithm/compare_algos_dot.py:124-135 | how many reachable pairs of distinct nodes have e in their cut: at most the number of pairs, and positive iff some such pair does |
| CompareAlgos.CountCutEdges | Tools/code/Algorithm/compare_algos_dot.py:124-135 | `reachable` iff some pair has a path; every edge's count is its `CutCount`; an edge has a positive count only if it is in the cut of a reachable pair of two distinct nodes; every counted edge is in H with a positive count |
| CompareAlgos.BumpAll | Tools/code/Algorithm/compare_algos_dot.py:132-133 | each edge of one cut gains one count, and no other count changes |
| CompareAlgos.ReachablePairCounts | Tools/code/Algorithm/compare_algos_dot.py:128-133 | a reachable pair of distinct nodes has a non-empty cut whose edges get counted |
| CompareAlgos.NoCountMeansSelfPair | Tools/code/Algorithm/compare_algos_dot.py:136-140 | when nothing was counted, every reachable pair is a node and itself |
| CompareAlgos.GreedyStep | Tools/code/Algorithm/compare_algos_dot.py:122-153 | a round deletes an edge of H of greatest cut frequency, and that frequency is positive, while some pair is reachable; it stops when none is, or when the fallback meets the pair ("", ""); otherwise the fallback raises IndexError for a node paired with itself |
| CompareAlgos.FirstReachableSelfPair | Tools/code/Algorithm/compare_algos_dot.py:136-138 | when no cut edge was counted, the first reachable pair is a node and itself |
| CompareAlgos.RemoveMinmcGreedy | Tools/code/Algorithm/compare_algos_dot.py:117-154 | the loop ends; the removed edges are edges of G; afterwards no pair is reachable or the first reachable pair is ("", ""); IndexError only for a node paired with itself |
| CompareAlgos.AllPairsCut | Tools/code/Algorithm/compare_algos_dot.py:163-169 | true iff no constraint pair has a path |
| CompareAlgos.BruteforceMinHitset | Tools/code/Algorithm/compare_algos_dot.py:156-172 | a non-empty result is the first cutting combination of its size, has at most kmax edges, and no set of 1 up to fewer edges cuts every pair; empty iff no set of 1..kmax edges cuts every pair |
| CompareAlgos.BruteforceSkipsEmptySet | Tools/code/Algorithm/compare_algos_dot.py:159-171 | on an already-cut graph with an edge, the search as written returns a one-edge set |
| CompareAlgos.BruteforceMinHitsetFromZero | Tools/code/Algorithm/compare_algos_dot.py:156-172 | the search from size 0: nothing is removed when the pairs are already cut, a non-empty result is the first cutting combination of its size, and no smaller set cuts every pair |
| CompareAlgos.FirstCuttingCombination | Tools/code/Algorithm/compare_algos_dot.py:160-171 | the first k-combination of the edges, in `combinations` order, whose removal cuts every pair, none before it cutting; or None, in which case no k edges do |
| CompareAlgos.FirstCutting | Tools/code/Algorithm/compare_algos_dot.py:160-171 | the index of the first combination that cuts every pair, and none before it does |
| CompareAlgos.AllCutAfterRemoving | Tools/code/Algorithm/compare_algos_dot.py:161-169 | removing a combination from a copy and scanning the pairs is true iff no pair keeps a path |
| CompareAlgos.NoCombinationCuts | Tools/code/Algorithm/compare_algos_dot.py:160-171 | if no k-combination of the edge list cuts every pair, no k-edge subset of the graph does |
| KonstantinAdapter.LoadConstraints | Tools/code/Algorithm/konstantin_adapter.py:30-32 | (s, target) for the starts present, and only when the target is present; none without a target |
| KonstantinAdapter.LoadConstraintsStarts | Tools/code/Algorithm/konstantin_adapter.py:30-32 | the starts of the constraints are exactly the listed starts that are nodes, in list order with repeats, when the target is a node; none otherwise |
| KonstantinAdapter.StartsOf | Tools/code/Algorithm/konstantin_adapter.py:91 | the starts of the constraints, in order |
| KonstantinAdapter.DisconnectsAll | Tools/code/Algorithm/konstantin_adapter.py:47-51 | true iff no constraint with both ends in G has a path |
| KonstantinAdapter.ReachableFromSources | Tools/code/Algorithm/konstantin_adapter.py:53-60 | exactly the nodes reachable from a source present in G, the sources included; absent sources are ignored |
| KonstantinAdapter.ReachableToTarget | Tools/code/Algorithm/konstantin_adapter.py:62-66 | the target and every node that reaches it; empty when the target is absent |
| KonstantinAdapter.Crossing | Tools/code/Algorithm/konstantin_adapter.py:81-83 | the edges running from side S into side T |
| KonstantinAdapter.AddCrossing | Tools/code/Algorithm/konstantin_adapter.py:81-83 | the loop over `G.edges()` adds exactly the crossing edges |
| KonstantinAdapter.FastMinCutUnion | Tools/code/Algorithm/konstantin_adapter.py:72-84 | the union of each present pair's crossing edges, a subset of G's edges that cuts every present pair, each edge from a pair that has a path; the uncaught error exactly when a present node is paired with itself |
| KonstantinAdapter.PairCutUnreachable | Tools/code/Algorithm/konstantin_adapter.py:80-83 | a pair of distinct nodes without a path has no crossing edge, so it adds nothing to the union |
| KonstantinAdapter.CutUnionDisconnects | Tools/code/Algorithm/konstantin_adapter.py:72-84 | removing every present pair's crossing edges disconnects every present pair |
| KonstantinAdapter.Candidates | Tools/code/Algorithm/konstantin_adapter.py:91-99 | the candidate edges in `G.edges()` order, each once; an edge is a candidate iff it leaves a node reachable from a start and enters a node that reaches a target |
| KonstantinAdapter.ReachableToTargets | Tools/code/Algorithm/konstantin_adapter.py:94-96 | exactly the nodes that reach a target present in G |
| KonstantinAdapter.CandidateSides | Tools/code/Algorithm/konstantin_adapter.py:93-98 | the forward and backward sets select exactly the edges on some start-to-target path |
| KonstantinAdapter.PruneKeepsCut | Tools/code/Algorithm/konstantin_adapter.py:98-110 | a removal that cuts every pair still does when restricted to the candidates |
| KonstantinAdapter.BruteforceMinMultiCut | Tools/code/Algorithm/konstantin_adapter.py:87-112 | nothing when the pairs are already cut; when some set of at most kmax edges cuts them, the first cutting combination of candidates of the smallest size, a smallest cut of G; otherwise exactly the min-cut union, or the uncaught error iff a present node is paired with itself |
| KonstantinAdapter.NoCutGrows | Tools/code/Algorithm/konstantin_adapter.py:104-110 | if no candidate k-set cuts every pair and no set below k does, then no set of at most k edges does |
| KonstantinAdapter.CutsAfterRemoving | Tools/code/Algorithm/konstantin_adapter.py:107-109 | removing a combination from a copy cuts every present pair iff the scan says so |
| KonstantinAdapter.FirstCutting | Tools/code/Algorithm/konstantin_adapter.py:105-110 | the index of the first candidate combination that cuts every pair, and none before it does |
| KonstantinAdapter.FirstCuttingCandidates | Tools/code/Algorithm/konstantin_adapter.py:105-110 | the first k-combination of candidates, in `combinations` order, that cuts every pair, none before it cutting; or None, in which case no k candidates do |
| KonstantinAdapter.NoCombinationCuts | Tools/code/Algorithm/konstantin_adapter.py:105-110 | if no k-combination of the candidates cuts every pair, no k-subset of the candidates does |
| KonstantinAdapter.NameMapTargets | Tools/code/Algorithm/konstantin_adapter.py:118-134 | every accepted spelling selects one of the six strategies |
| KonstantinAdapter.LookupAlgo | Tools/code/Algorithm/konstantin_adapter.py:138-140 | the mapped strategy for a known key, and ValueError naming the input otherwise |
| KonstantinAdapter.NormalizeAlgoName | Tools/code/Algorithm/konstantin_adapter.py:136-140 | accepted iff the stripped, lower-cased name is a key; the result is its strategy; otherwise ValueError |
| KonstantinAdapter.NormalizeKeyStable | Tools/code/Algorithm/konstantin_adapter.py:136-140 | normalising the key of a name again gives the same verdict and the same strategy |
| KonstantinAdapter.AlgoKeyTwice | Tools/code/Algorithm/konstantin_adapter.py:137 | the key of a key is the key itself |
| KonstantinAdapter.NormalKey | Tools/code/Algorithm/konstantin_adapter.py:137 | a key without outer spaces or capitals is its own key |
| KonstantinAdapter.NameMapKeysNormal | Tools/code/Algorithm/konstantin_adapter.py:118-134 | every spelling in the table is already stripped and lower-case |
| KonstantinAdapter.KnownNamesAccepted | Tools/code/Algorithm/konstantin_adapter.py:118-140 | each of the twelve known spellings is accepted and mapped as the table says |
| BatchRun.MinOverUnique | Tools/code/Algorithm/batch_run.py:30-38 | the least path cost over the starts is unique |
| BatchRun.MinOverAtTarget | Tools/code/Algorithm/batch_run.py:30-38 | with non-negative costs it is 0 when a start is the target |
| BatchRun.MinPathCostSnoc | Tools/code/Algorithm/batch_run.py:32-37 | one loop step, `best = val if best is None or val < best`, keeps `best` the minimum over the starts seen so far |
| BatchRun.MinPathCost | Tools/code/Algorithm/batch_run.py:30-38 | None iff no start reaches the target, otherwise the least cost-weighted distance over the starts, 0 when a start is the target; NodeNotFound when a start is missing |
| BatchRun.Assess | Tools/code/Algorithm/batch_run.py:73-77 | the four verdicts: privacy is acceptable iff accept-all is blocked or declining costs no more than accepting all; blocked implies acceptable and a dark pattern rules it out |
| BatchRun.DecisionRoute | Tools/code/Algorithm/batch_run.py:52-64 | defined iff the button is a node with an edge to the decision node and is reachable; then the least cost to the button plus that edge's cost |
| BatchRun.SelectedRoute | Tools/code/Algorithm/batch_run.py:66-71 | defined iff both AcceptSelected → Apply and Apply → T exist and AcceptSelected is reachable; then the least cost to it plus both edge costs |
| BatchRun.AssembleMetrics | Tools/code/Algorithm/batch_run.py:79-88 | the report built from the four costs meets the metrics specification |
| BatchRun.ComputePrivacyMetrics | Tools/code/Algorithm/batch_run.py:43-88 | the report meets the metrics specification: the best cost, the three routes and the verdicts; NodeNotFound when a start is missing |
| BatchRun.ExampleRoute | Tools/code/Algorithm/batch_run.py:52-64 | in the worked example, the route through a button costs one click plus the button's edge to T |
| BatchRun.WorkedExample | Tools/code/Algorithm/batch_run.py:52-77 | with Start→AcceptAll(1), AcceptAll→T(1), Start→Decline(1) and Decline→T(3): accept-all costs 2, decline 4, it is a dark pattern and privacy is not acceptable |
| ConsentOptimize.AddMissing | Tools/code/Algorithm/consent_optimize.py:31-34 | the list grows only at its end, only by listed pairs not yet present, and afterwards contains every listed pair |
| ConsentOptimize.AddMissingPresent | Tools/code/Algorithm/consent_optimize.py:31-34 | when every pair is present nothing is added |
| ConsentOptimize.AddMissingIdempotent | Tools/code/Algorithm/consent_optimize.py:31-34 | completing the backbone twice is the same as once |
| ConsentOptimize.DeleteStep | Tools/code/Algorithm/consent_optimize.py:37-39 | deleting each matching edge of the snapshot in turn removes exactly the matching edges met so far |
| ConsentOptimize.Norm | Tools/code/Algorithm/consent_optimize.py:88-89 | "∞" exactly for values of at least 10**9, the decimal text otherwise |
| ConsentOptimize.DotGraph.Nodes | Tools/code/Algorithm/consent_optimize.py:28-29 | the converted graph's nodes: the declared nodes and every edge endpoint |
| ConsentOptimize.DotGraph.AddEdge | Tools/code/Algorithm/consent_optimize.py:34 | an edge between two nodes with no edge yet is appended after the existing edges; the declared nodes do not change |
| ConsentOptimize.DotGraph.DelEdge | Tools/code/Algorithm/consent_optimize.py:39 | every edge from u to v is deleted and the others keep their order |
| ConsentOptimize.DotGraph.EnsureBackbone | Tools/code/Algorithm/consent_optimize.py:31-34 | the missing backbone pairs are appended; every backbone pair is present; no other edge appears or disappears |
| ConsentOptimize.DotGraph.RemoveAcceptAllShortcuts | Tools/code/Algorithm/consent_optimize.py:36-39 | exactly the edges out of AcceptAll are removed; all others stay, in order |
| ConsentOptimize.DotGraph.KeepOnlySaveTo | Tools/code/Algorithm/consent_optimize.py:41-45 | exactly the Save → service edges to other services are removed; Save → required, Save → non-services and all other edges stay |
| ConsentOptimize.DotGraph.AddMissingSaveEdge | Tools/code/Algorithm/consent_optimize.py:47-49 | a Save → required edge exists afterwards, and nothing changes if one did before |
| ConsentOptimize.DotGraph.OptimizeFlow | Tools/code/Algorithm/consent_optimize.py:77-81 | after the four edits AcceptAll has no outgoing edge, the backbone is complete, Save leads to exactly the required service among the services, and no other edge is added or removed |
| ConsentOptimize.DotGraph.ShortestClicks | Tools/code/Algorithm/consent_optimize.py:51-58 | 10**9 when either node is missing or the target is unreachable, otherwise the least number of edges on a path |
| Graphs.CostOf | Tools/code/Algorithm/batch_run.py:40-41 | an edge's `cost` attribute, 1 when it has none |
| Graphs.OrOne | Tools/code/Algorithm/batch_run.py:22 | `e.get("cost", 1)`: the given value, or 1 when absent |
| Graphs.DiGraph.Cost | Tools/code/Algorithm/batch_run.py:40-41 | `edge_cost` on the graph: the edge's cost attribute, 1 by default |
| Graphs.DiGraph.HasEdge | Tools/code/Algorithm/batch_run.py:27 | true iff (u, v) is an edge |
| Graphs.DiGraph.Copy | Tools/code/Algorithm/compare_algos_dot.py:74 | a fresh graph with the same nodes, edges and attributes |
| Graphs.DiGraph.AddNodes | Tools/code/Algorithm/batch_run.py:19 | the nodes become the old ones followed by the first occurrence of each listed node not yet present (`Dedup`); edges unchanged |
| Graphs.DiGraph.AddEdge | Tools/code/Algorithm/konstantin_adapter.py:24-28 | a missing source and then a missing target are appended to the nodes; a new edge is inserted in adjacency order, an existing one keeps its place; the attributes are replaced |
| Graphs.DiGraph.RemoveEdge | Tools/code/Algorithm/batch_run.py:28 | exactly that edge and its attributes are removed; the nodes stay |
| Graphs.DiGraph.Discard | Tools/code/Algorithm/compare_algos_dot.py:162 | `remove_edges_from` for one edge: removed if present, nothing otherwise |
| Graphs.DiGraph.RemoveEdges | Tools/code/Algorithm/batch_run.py:25-28 | exactly the listed edges that exist are removed; other edges keep their order and all nodes stay |
| Graphs.RemoveEdgesIdempotent | Tools/code/Algorithm/konstantin_adapter.py:42-45 | removing the same list twice removes nothing more |
| Graphs.LoadGraph | Tools/code/Algorithm/batch_run.py:16-23 | the nodes are the listed ones then the record endpoints, each at its first occurrence; the edges are in the order `LoadedEdges` inserts them; an edge exists iff a record names it, with the attributes of its last record and 1 for a missing cost or capacity |
| Graphs.LoadStep | Tools/code/Algorithm/batch_run.py:21-22 | adding one more record with `add_edge` to the graph loaded from the records before it gives the graph loaded from the records up to it |
| Basics.AddNew | Tools/code/Algorithm/batch_run.py:19 | the list gains x at its end unless x is there, keeps its prefix, and stays free of repeats |
| Basics.DedupSnoc | Tools/code/Algorithm/batch_run.py:19 | keeping first occurrences of a list extended by x adds x at the end exactly when it is new |
| Basics.DedupAppend | Tools/code/Algorithm/batch_run.py:19 | removing repeats, appending more and removing repeats again is the same as removing them once at the end |
| Paths.HasPath | Tools/code/Algorithm/compare_algos_dot.py:64 | `has_path` is true iff a path leads from s to t |
| Paths.PathExists | Tools/code/Algorithm/konstantin_adapter.py:49 | `has_path` as a call: true iff a path leads from s to t |
| Paths.ReachFrom | Tools/code/Algorithm/konstantin_adapter.py:58-59 | exactly the nodes reachable from a node of S |
| Paths.Descendants | Tools/code/Algorithm/konstantin_adapter.py:58 | `descendants(G, s)`: the nodes other than s reachable from s |
| Paths.ReverseReaches | Tools/code/Algorithm/konstantin_adapter.py:65-66 | t reaches s in the reversed graph iff s reaches t |
| Paths.CrossingCutSeparates | Tools/code/Algorithm/konstantin_adapter.py:80-83 | removing the edges from S to T of a partition separates s in S from t in T |
| Paths.HopDistance | Tools/code/Algorithm/consent_optimize.py:56-58 | None iff t is unreachable; otherwise t is reachable within that many edges and not within fewer |
| Paths.MinCostUnique | Tools/code/Algorithm/batch_run.py:34 | the least path cost between two nodes is unique |
| Paths.MinCostSelf | Tools/code/Algorithm/batch_run.py:34 | with non-negative costs a node is at distance 0 from itself |
| Oracles.ShortestPathToSelf | Tools/code/Algorithm/compare_algos_dot.py:81 | a shortest path from a node to itself is the node alone |
| Oracles.ShortestPathFacts | Tools/code/Algorithm/compare_algos_dot.py:81-87 | a shortest path follows edges of the graph, and has an edge to draw iff its ends differ |
| Itertools.CombinationShape | Tools/code/Algorithm/compare_algos_dot.py:160 | every k-combination has k elements and is a subsequence of the list |
| Itertools.CombinationMembers | Tools/code/Algorithm/compare_algos_dot.py:160 | a combination's elements come from the list, without repeats when the list has none |
| Itertools.CombinationsComplete | Tools/code/Algorithm/konstantin_adapter.py:105 | every k-subset of a duplicate-free list is enumerated as some combination |
| Itertools.Product | Tools/code/Algorithm/apply_on_dot.py:162 | each tuple takes one element from each list in turn, and the first tuple is the first elements |
| Itertools.Firsts | Tools/code/Algorithm/apply_on_dot.py:162 | the first element of each list, in order |
| Sorting.Sort | Tools/code/Algorithm/apply_on_dot.py:21 | `sorted`: a permutation in non-decreasing order, strictly increasing when there are no repeats |
| Sorting.LessIsStrictTotalOrder | Tools/code/Algorithm/apply_on_dot.py:21 | Python's `<` on strings is a strict total order |
| Sorting.EdgeLessIsStrictTotalOrder | Tools/code/Algorithm/apply_on_dot.py:38 | Python's `<` on string pairs is a strict total order |
| Sorting.IncreasingUnique | Tools/code/Algorithm/apply_on_dot.py:38 | two increasing lists with the same elements are equal, so `sorted(set(E))` is unique |
| Strings.Strip | Tools/code/Algorithm/konstantin_adapter.py:137 | the result is the contiguous middle of the input left after dropping only whitespace from both ends, and neither end of it is whitespace |
| Strings.Lower | Tools/code/Algorithm/konstantin_adapter.py:137 | each letter A-Z becomes lower case and every other character stays |
| Strings.StripLowerIdempotent | Tools/code/Algorithm/konstantin_adapter.py:137 | strip-then-lower applied twice is the same as once |
| Strings.IntToString | Tools/code/Algorithm/consent_optimize.py:89 | `str(x)`: a leading minus sign iff x is negative, then the decimal digits of the absolute value of x, with no leading zero unless x is 0 |
| Basics.Dedup | Tools/code/Algorithm/konstantin_adapter.py:99 | `dict.fromkeys`: the same elements without repeats; unchanged when there were none |
| Basics.Without | Tools/code/Algorithm/konstantin_adapter.py:42-45 | the edges not in R, in order |

## Left out

- File and process I/O are not modelled: reading DOT and JSON files, writing DOT, PNG, CSV, Markdown and JSON, Graphviz subprocesses, `argparse` and every `main`. `run_konstantin.py` and `visualize_diff.py` are not part of this model.
- `load_dot`'s label normalisation and `colorize_removed` only touch display attributes, so the model drops them.
- The `run_all`/ALGOS dispatch tables and the per-strategy loops of each `main` are out of scope; only the strategies they call are modelled.
- `run_algorithm`'s seeding from PYTHONHASHSEED and the KON_BF_KMAX variable are ambient state. `kmax` and the random draws are parameters instead.
- The `disconnect`, `random_edge` and `first_edge` branches of `run_algorithm` call `algorithms_local`, which is not part of this model.
- The internals of `nx.shortest_path`, `nx.minimum_edge_cut`, `nx.minimum_cut` and weighted `nx.shortest_path_length` are not verified. Each is an oracle that guarantees only what the code relies on: a real shortest path, a cut whose removal separates the pair, a partition separating the pair, a least path cost.
- Oracles.ValidMinEdgeCut, Oracles.ValidCutPartition: the cut of a pair with a path is any set of edges that separates it, not necessarily one of least size or capacity, so the union strategies are stated relative to whatever cut the oracle returns. A pair without a path has an empty cut. For `minimum_cut` that holds only when every capacity is positive: networkx may put a zero-capacity edge across the partition of such a pair, and the model does not.
- Dijkstra's behaviour with negative costs is excluded: BatchRun.MinPathCost and BatchRun.ComputePrivacyMetrics require non-negative costs.
- `int(...)` conversion of JSON cost and capacity strings is not modelled; the records carry integers.
- Strings.Lower, CompareAlgos.IsUpper: only ASCII letters change case. Python's full Unicode case mapping is not modelled. Strings.IsSpace follows Python's whitespace set.
- ApplyOnDot.DetectServices: node names are taken as `str(n)` already; pydot's quoting of names is not modelled. The same holds for ConsentOptimize: `from_pydot` strips the quotes of a quoted name while the edge edits compare the raw pydot names, and the model treats both as one name.
- Networkx reads DOT graphs as multigraphs in apply_on_dot.py. They are modelled as a node list and an edge list with parallel edges (`MultiGraph`), without edge keys or attributes.
- The working copy `H` in compare_algos_dot.py's random and greedy strategies is kept as its edge set, since those strategies only delete edges and test membership. In-place updates of a networkx copy are modelled by the `Graphs.DiGraph` methods.
- compare_algos_dot.py's `except nx.NetworkXError` around `has_path` is left out. A missing endpoint raises NodeNotFound, which that clause does not catch, so the model requires constraint endpoints to be graph nodes there (`InGraph`), as `build_constraints` guarantees.
- CompareAlgos.RemoveRandomEdge, CompareAlgos.RemoveMinmcGreedy: termination is proved by the shrinking edge set. The models do not claim that every pair ends disconnected, because the source does not achieve that for a node paired with itself.
- `sorted` with a key function is modelled only where it matters. `choose_one_incoming`'s stable sort becomes "the first edge of least score".

## Findings

| source | as written | input that shows it | evidently intended | confidence | as-written member | corrected member |
|---|---|---|---|---|---|---|
| Tools/code/Algorithm/compare_algos_dot.py:159 | the search tries sizes `range(1, kmax+1)`, so it never considers removing nothing | a graph with one edge a→b and the constraint (b, a): the pair is already cut, yet the result is {(a, b)} | the smallest set, as the comment at line 157 says: the empty set when the pairs are already cut | high, not executed | CompareAlgos.BruteforceMinHitset, CompareAlgos.BruteforceSkipsEmptySet | CompareAlgos.BruteforceMinHitsetFromZero |
