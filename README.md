# Directed graph, path enumeration and the V' augmentation heuristic

This project models `main.py` of a small Python program in Dafny:

- **Graph store.** The `Directed_Graph` class maps each node to its ordered
  list of outgoing `(destination, weight)` entries. It also keeps the node
  names in insertion order. In the model this is a class
  `Graphs.DirectedGraph` with a `map<string, seq<(string, int)>>` field and a
  `seq<string>` field. Its invariant `Valid()` says that every name is a key
  exactly once and in the list exactly once, and that every edge ends at a
  node.
- **Path enumerator.** `find_paths` runs a depth-first search. It returns
  every path from a source to a target that does not revisit a name, with
  the summed weight of the path, sorted by weight with the heaviest first.
  `PathFinding.PathsFrom` is the specification function and
  `PathFinding.FindPaths` is the recursive method with the neighbour loop.
- **Reachability augmenter.** `get_most_reachable` ranks the nodes by how
  many paths reach them from a source. `set_Vprime` then inserts a node
  `"V'"`, wires the "safe" nodes into it, and reports whether `"V'"` now
  beats the old most reachable node. Both are modelled as functions of the
  graph (`MostReachableOf`, `AugmentOf`) and as methods on the class that
  are proved equal to those functions.
- **Test graph.** `build_custom_graph` builds a graph with nine nodes and
  fifteen edges. `Fixture.BuildCustomGraph` builds it through the class
  methods. Lemmas compute what the program does on it:
  - `"8"` is the most reachable node from `"0"`, with 10 paths.
  - The first path to `"8"` is `0 → 6 → 7 → 8`, with cost 13.
  - `set_Vprime` wires `0, 1, 2, 6` and `V'` into `"V'"`. Then only 4 paths
    reach `"V'"`, so it ends with the goal unmet.
  - These results hold for the search exactly as written too: on the test
    graph, and on the augmented graph for the target `"V'"`, the search
    as written returns what the intended search returns
    (`MainProgram.AsWrittenOnFixture`).

Nodes are identified by name. The Python code keys its dictionary by `Node`
object, but every name in the test graph is unique, so keying by name gives
the same behaviour there. Python's `sorted(..., reverse=True)` is modelled
as a stable descending insertion sort, `Sorting.SortDesc`. Lemmas prove that
it is ordered, that it is a permutation of its input, and that it is stable.
Python's `dict` iterates in insertion order. Under `Valid()` that is the
order of the name list, so the nested scans in the model go over the name
list.

Exceptions become result values:

- `add_edge`'s `ValueError` becomes `EdgeResult.UnknownNode`.
- `set_Vprime` ends in one of the `Reachability.Augmentation` cases:
  - `Inserted`: success.
  - `GoalUnmet`: the raise at `main.py:280`. The new node and its edges stay
    in the graph.
  - `AlreadyPresent`: a node named `"V'"` already exists.
  - `NoNodes`: the `IndexError` that `get_most_reachable` raises on an empty
    graph.

## Model

| member | source | states |
|---|---|---|
| `Graphs.DirectedGraph.constructor` | main.py:6-8 | A new graph has no nodes, no adjacency entries, and is consistent. |
| `Graphs.DirectedGraph.AddNode` | main.py:10-20 | An absent name gets an empty adjacency list and is appended to the name list. A present name is reported and leaves the graph unchanged. Consistency is kept. |
| `Graphs.DirectedGraph.AddEdge` | main.py:22-38 | An unknown origin (checked first), then an unknown destination, is reported and leaves the graph unchanged. Otherwise exactly `(dest, weight)` is appended to the end of the origin's list and nothing else changes. Parallel edges are kept. |
| `Graphs.DirectedGraph.IsNodeIn` | main.py:40-50 | A name is in the store exactly when it is in the name list. |
| `Graphs.DirectedGraph.GetNode` | main.py:52-65 | The linear scan finds the name exactly when it is a node. Otherwise it answers "not found" instead of printing. |
| `Graphs.DirectedGraph.GetAllNodes` | main.py:67-71 | The names have no repeats and are exactly the nodes of the store. |
| `Graphs.DirectedGraph.GetNeighbours` | main.py:73-86 | An absent node has no neighbours. Every listed destination is a node. |
| `Graphs.DirectedGraph.GetIncomingNeighbours` | main.py:88-108 | The nested scan returns the `Incoming` sequence: origins in node order, and each origin's entries in list order. An absent node gives `[]`. |
| `Graphs.Incoming` | main.py:102-108 | The incoming entries of `v`: origins scanned in name-list order, each origin's list scanned in order. `IncomingCount` and `IncomingMembers` state what it contains. |
| `Graphs.IncomingCount` | main.py:102-108 | The entry `(m, w)` occurs in the incoming list exactly as often as `m`'s list holds `(v, w)`. So there is one entry per edge, parallel edges included. |
| `Graphs.IncomingMembers` | main.py:102-108 | `(m, w)` is an incoming entry of `v` if and only if `m` is a node with an edge `(v, w)`. |
| `Sorting.SortDescProperties` | main.py:215 | The stable descending sort gives a sequence ordered by non-increasing key that is a permutation of its input. |
| `Sorting.SortDescStable` | main.py:215 | The elements that share a key keep their original relative order, as Python's stable `sorted` keeps them. |
| `Sorting.SortDescOfSorted` | main.py:215 | An input that is already in descending order comes back unchanged. |
| `Sorting.FirstMaxIndex` | main.py:234 | The index of the earliest element with the largest key. |
| `Sorting.SortDescHead` | main.py:234 | The head of the sorted sequence is the earliest element with the largest key. |
| `Sorting.SortDescUniqueMax` | main.py:234 | An element whose key beats every other key ends up first. |
| `PathFinding.PathsFrom` | main.py:198-215 | The search after a path so far and a cost so far: the target ends it, a name that is not a node has no paths, otherwise the neighbour loop's results are sorted. `PathsFromSound`, `PathsFromComplete`, `PathsFromSorted` and `PathsFromDistinct` state what it returns. |
| `PathFinding.Explore` | main.py:208-213 | The neighbour loop: each entry's paths in adjacency order, skipping names already on the path. `ExploreSource` and `ExploreCollects` tie each collected path to the entry it came through. |
| `PathFinding.Paths` | main.py:198-206 | When the source is the target, the result is exactly `[([source], 0)]`. A source that is not a node (and is not the target) gives `[]`. |
| `PathFinding.PathsFromSorted` | main.py:215 | At every level of the search the result is ordered by non-increasing cost. |
| `PathFinding.PathsFromSound` | main.py:200-213 | Each returned path extends the path so far. It starts at the source and ends at the target. Consecutive names are joined by an edge, and the cost is the initial cost plus the weights of those edges. No name repeats, and no later name is on the path so far. |
| `PathFinding.PathsFromComplete` | main.py:208-213 | Every such walk is returned. |
| `PathFinding.PathsCharacterization` | main.py:184-215 | `find_paths(g, s, t)` contains exactly the paths from `s` to `t` with no repeated name, each with its summed weight, sorted heaviest first. |
| `PathFinding.PathsFromDistinct` | main.py:208-215 | When no node has two edges to the same destination, no path is returned twice. |
| `PathFinding.PathsDistinct` | main.py:184-215 | Without parallel edges, the entries of `find_paths(g, s, t)` have no repeats, so its length is the number of paths from `s` to `t` that repeat no name. |
| `PathFinding.FindPaths` | main.py:184-215 | The recursive search with its neighbour loop returns exactly `PathsFrom` for the same graph, source, target, cost and path. |
| `PathFindingAsWritten.AsWrittenDivergesOnCycle` | main.py:210-212 | As written, the visited test never fires. On a two-node cycle the search does not finish within any recursion depth. |
| `PathFindingAsWritten.IntendedEndsOnCycle` | main.py:210-212 | On the same graph the search with the intended name test ends with no paths. |
| `PathFindingAsWritten.AsWrittenAgreesOnAcyclic` | main.py:184-215 | On an acyclic graph the search as written ends within `|nodes| + 1` levels and returns what the intended search returns. |
| `PathFindingAsWritten.AsWrittenAgreesExcept` | main.py:184-215 | The same holds when every cycle of the graph leaves the target, because both searches stop at the target. |
| `PathFindingAsWritten.DescendingAcyclicExcept` | main.py:202-213 | A height that drops along every edge out of a name other than the target rules out every cycle that avoids leaving the target. |
| `PathFindingAsWritten.AsWrittenAgreesDescending` | main.py:184-215 | When such a height exists, the search as written ends and returns what the intended search returns. |
| `PathRecurrence.PathsRecurrence` | main.py:208-215 | When some height drops along every edge, the paths from a non-target node are the sorted concatenation of each neighbour's paths, prefixed by the node and raised by the edge weight. |
| `PathRecurrence.CountRecurrence` | main.py:208-213 | Under the same condition, the number of paths from a node is the sum over its neighbour entries. |
| `Reachability.PathCounts` | main.py:229-232 | Entry `i` pairs the `i`-th node name with the number of paths from the source to it. |
| `Reachability.MostReachableOf` | main.py:229-234 | There is no answer exactly when there are no nodes. Otherwise the answer names a node. |
| `Reachability.MostReachableSpec` | main.py:229-234 | The answer's count is the number of paths to that node, and no node is reached by more. Every other node with the same count comes later in insertion order. |
| `Reachability.MostReachable` | main.py:218-234 | The counting loop followed by the head of the stable sort returns exactly `MostReachableOf`. The graph is not changed, so two calls give the same answer. |
| `Reachability.Blocking` | main.py:250-252 | The out-neighbour names of V, or its in-neighbour names when it has no out-neighbours. `BlockingInGraph` and `FixtureVprime.FixtureBlocking` state its properties. |
| `Reachability.SafeNames` | main.py:261-264 | The filter of the name list by "not V and not blocked". `SafeNamesMembers` and `SafeNamesOrder` state what it returns. |
| `Reachability.SafeNamesMembers` | main.py:261-264 | The safe names are exactly the listed names that are neither V nor blocked, without repeats when the name list has none. |
| `Reachability.SafeNamesOrder` | main.py:261-264 | The safe names keep the order of the name list: the `k`-th safe name is at a position of the name list that increases with `k`. |
| `Reachability.WireInto` | main.py:268-269 | The adjacency after one `(target, 1)` entry is appended for each name wired, in order. It has the same nodes as before. `WireIntoAt` states each list. |
| `Reachability.WireIntoAt` | main.py:268-269 | Wiring distinct names appends one `(target, 1)` entry to each of them and changes no other list. |
| `Reachability.WiredEdges` | main.py:277-278 | The reported edges are `(n, 1, "V'")` for each safe name `n`, in order. |
| `Reachability.BlockingInGraph` | main.py:250-252 | Every blocked name, whether an out-neighbour or an in-neighbour of V, is a node. |
| `Reachability.SafeNamesAugmented` | main.py:259-266 | The safe list is read after `"V'"` joined the name list. So `"V'"` is on it, the list is never empty, and the raise at main.py:266 cannot happen. |
| `Reachability.Augmented` | main.py:254-269 | The adjacency after `"V'"` is added and wired from the safe names read after it joined the name list. `AugmentShape` states it node by node. |
| `Reachability.AugmentOf` | main.py:237-280 | `set_Vprime` as a function of the graph before the call: the graph after it, the name list after it and the outcome. `AugmentOutcome` states the outcome and `SetVprime` is proved equal to it. |
| `Reachability.AugmentShape` | main.py:250-269 | After the insertion, `"V'"` is a node whose only edge is a self-loop. Every node that is neither V nor blocked gains exactly one weight-1 edge into `"V'"` at the end of its list. Nothing else changes, and the store stays consistent. |
| `Reachability.AugmentOutcome` | main.py:247-280 | With nodes present and no `"V'"`, the call adds `"V'"` to the name list. It reports `Inserted` exactly when more paths reach `"V'"` than reach V, with one edge per safe name. Otherwise it reports `GoalUnmet`, and the additions stay. |
| `Reachability.WireNodes` | main.py:268-269 | The loop leaves the name list alone and turns the adjacency into `WireInto` of the old one. |
| `Reachability.SetVprime` | main.py:237-280 | The new graph, the new name list and the outcome are exactly `AugmentOf` of the graph before the call. |
| `Fixture.FixtureWellFormed` | main.py:168-177 | The test graph is a consistent store. |
| `Fixture.ConnectFixture` | main.py:173-180 | Adding the fifteen edges in order to the nine bare nodes gives the literal test adjacency. |
| `Fixture.BuildCustomGraph` | main.py:155-182 | A fresh, consistent graph whose name list is `"0"`…`"8"` and whose adjacency is the test graph. |
| `FixtureScenario.CountsFrom0` | main.py:229-232 | From `"0"` the path counts are 1,1,1,3,2,1,1,4,10 for nodes `"0"`…`"8"`. |
| `FixtureScenario.FixturePathsDistinct` | main.py:173-177 | The test graph has no parallel edges, so the path counts from `"0"` count distinct paths. |
| `FixtureScenario.MostReachableFixture` | main.py:289 | `get_most_reachable` from `"0"` on the test graph answers `("8", 10)`. |
| `FixtureScenario.FirstPathFrom0` | main.py:290 | `find_paths(G, 0, 8)` returns ten paths, and the first is `(["0","6","7","8"], 13)`. |
| `FixtureVprime.FixtureBlocking` | main.py:250-252 | `"8"` has no out-edges, so its blocking set is its in-neighbours `{3, 4, 5, 7}`. |
| `FixtureVprime.FixtureSafe` | main.py:261-264 | The safe names are `0, 1, 2, 6, V'`, in that order. |
| `FixtureVprime.FixtureAugmented` | main.py:259-269 | The augmented test graph is the literal graph with those five edges into `"V'"`. |
| `FixtureGoal.FourPathsToVPrime` | main.py:271-272 | Four paths lead from `"0"` to `"V'"` in the augmented test graph. |
| `MainProgram.FixtureOutcome` | main.py:247-280 | On the test graph from `"0"`, `set_Vprime` ends with `GoalUnmet(4, 10)` and leaves the augmented graph in place. |
| `MainProgram.AsWrittenOnFixture` | main.py:211 | On the test graph, for every target, and on the augmented graph, for the target `"V'"`, the search as written ends and returns what the intended search returns. |
| `MainProgram.AsWrittenFixtureResults` | main.py:289-290 | The search as written finds ten paths from `"0"` to `"8"`, the first `0 → 6 → 7 → 8` at cost 13, and four paths from `"0"` to `"V'"` once `"V'"` is wired in. |
| `MainProgram.RunMain` | main.py:283-296 | The entry point without printing finds `"8"` with 10 paths and ten paths to it, the first being `0 → 6 → 7 → 8` at cost 13. The augmentation ends with the goal unmet. |

## Left out

- Console output is not modelled. This covers the not-found messages of `get_node`, `get_neighbours` and `get_incoming_neighbours`, the "already present" message, and the success report. The success report's content (the count and the edge list) is returned in `Inserted`.
- The `__str__` methods of the graph, `Edge` and `Node` are not modelled. They are pure formatting.
- Python object identity and hashing are not modelled: nodes are identified by their name. The source keys the dictionary by `Node` object and compares nodes by identity. With unique names, as in the test graph, the two agree.
- Reachability.SetVprime: the test for an existing `"V'"` is by name. In the source (main.py:254-255) it tests a newly built `Node` object by identity, so it is never true. A second call would usually not get that far either. When the search from the source can reach `"V'"`, the self-loop on `"V'"` makes the source's `find_paths` recurse without end for any target other than `"V'"`.
- Reachability.MostReachableOf: an empty graph makes the source raise `IndexError` (main.py:234). The model returns `None` instead, and `SetVprime` returns `NoNodes`.
- The default weight 1 of `Edge` (main.py:124) is not modelled: every edge in the model names its weight, and no call in the source relies on the default.
- PathFinding.PathsCharacterization: when a node has parallel edges, the number of times a path is returned is not stated. The search returns it once per choice of parallel edges, but only the case without parallel edges is proved (`PathFinding.PathsDistinct`), which covers the test graph.
- PathFinding.PathsFromComplete: states that every path is returned, not how many times; see the line above.
- Weights are integers only. The source accepts any number, but the test graph uses integers.
- Running time, recursion-depth limits and `RecursionError` are not modelled.
- PathFindingAsWritten.PathsAsWritten: the search as written is bounded by a recursion depth (`fuel`), and `None` means it did not finish within that depth. Its non-termination is shown only through that bound.
- The "empty safe list" raise (main.py:265-266) has no outcome case, because it is unreachable (`Reachability.SafeNamesAugmented`).

## Findings

| source | as written | input that shows it | evidently intended | confidence | as-written member | corrected member |
|---|---|---|---|---|---|---|
| main.py:211 | `node not in path` tests a `Node` object against a list of name strings, so it never excludes a neighbour | nodes `0`, `1`, `2` with edges `0→1` and `1→0`: `find_paths` from `0` to `2` goes back and forth between `0` and `1` without end | skip a neighbour whose name is already on the path, so that only simple paths are enumerated and the search ends on cyclic graphs | high (the types never match); not executed | `PathFindingAsWritten.AsWrittenDivergesOnCycle` | `PathFinding.PathsCharacterization` |

The rest of the model uses the corrected search (`PathFinding.PathsFrom`).
On acyclic graphs the two searches agree
(`PathFindingAsWritten.AsWrittenAgreesOnAcyclic`). They also agree on graphs
whose only cycles leave the target. This covers the test graph, and the
augmented graph with its `"V'"` self-loop when the target is `"V'"`
(`MainProgram.AsWrittenOnFixture`). So the results on the test graph are
those of the program as written.
