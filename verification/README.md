# Dependency-graph engine of the file concatenator

A Dafny model of the engine in `FileConcatenationApp`, with proofs about it. The application
concatenates text fragments. A fragment declares the fragments it needs with a line directive
`*require '<path>'*`. The engine has three parts:

- **Directive extraction and graph building** (`directive.dfy`, `build.dfy`).
  - A line holds a directive when the pattern `\*require '(.+)'\*` matches it.
  - The first match counts. Its greedy group is resolved against the root directory.
  - The line adds an edge only when the resolved file is one of the discovered fragments.
  - Every discovered fragment becomes a key of the dependency map, even with no edges.
- **Kahn's topological sort** (`topo_sort.dfy`).
  - The in-degree of a file counts the edge occurrences naming it.
  - The queue is seeded with the files nobody requires.
  - Each dequeued file is emitted, then releases its own targets.
  - The result is "no order" (the source's `null`) when fewer files were emitted than the map has keys.
- **Diagnostic cycle search** (`cycle_search.dfy`).
  - `hasCycle` is a depth-first search whose `visited` set is the current path.
  - `detectCycle` starts a fresh search from each key and reports the first hit.

Modelling choices:

- `graph.dfy` holds the shared vocabulary: walks, cycles, enumerations of the key set and edge-respecting orders.
- Fragments are a generic type `F`.
- Path resolution is a parameter `resolve(root, path)`. Reading a fragment is a parameter `read(f)` that gives its lines.
- The two Java `HashMap` iteration orders are parameters, and every property holds for every choice:
  - `order` is the iteration order of the dependency map;
  - `seedOrder` is the iteration order of the in-degree map during queue seeding.
- The search's mutable `visited` set becomes a returned value.
- The printed cycle report becomes a returned `CycleReport`.

Three behaviours of the code that a reader might not expect:

- **Order direction.** Edges run from a file to the files it requires, so Kahn's algorithm emits every file before the files it requires: A requires B requires C gives `[A, B, C]`.
- **Cycle report.** The report is the `visited` set the search leaves behind: an unordered set of path members.
- **Captured path.** The greedy group `(.+)` runs to the last `'*` on the line, so the captured path may contain quotes and `'*`.

## Model

| member | source | states |
|---|---|---|
| Directive.LastClosing | src/main/FileConcatenationApp.java:13 | The greedy group's end: the result is a closing marker in the range with no closing marker after it, and `None` means there is no closing marker in the range at all. |
| Directive.FindFrom | src/main/FileConcatenationApp.java:55-57 | `None` exactly when no match starts at or after `i`. Otherwise the result is the group captured by the leftmost match from `i`, ending at the last closing marker that pairs with its opening. |
| Directive.RequiredPath | src/main/FileConcatenationApp.java:55-57 | `find()` on a line: `None` exactly when the pattern does not match anywhere. Otherwise the result is the non-empty greedy group of the leftmost match. |
| Directive.CaptureFollowsFirstOpening | src/main/FileConcatenationApp.java:55-57 | The captured match starts at the first `*require '` marker of the line: no opening marker occurs before it. |
| Build.LineEdge | src/main/FileConcatenationApp.java:55-64 | A line yields at most one edge. It yields one exactly when it holds a directive whose resolved path is a discovered file, and that edge is the resolved file. |
| Build.FileDependencies | src/main/FileConcatenationApp.java:52-66 | A fragment's dependency list has no more entries than the fragment has lines, and every entry is a discovered file. |
| Build.BuildDependencies | src/main/FileConcatenationApp.java:44-69 | The keys are exactly the discovered files, including those without directives. Each entry is that file's line-by-line dependency list. Every edge target is a key, so no lookup can miss. |
| Build.DependenciesAppend | src/main/FileConcatenationApp.java:53-65 | Edges come in line order: the list for lines `a + b` is the list for `a` followed by the list for `b`. |
| Build.DroppedLineIsInvisible | src/main/FileConcatenationApp.java:58-63 | A line without a directive, or one naming an undiscovered file, leaves the dependency list exactly as if the line were absent. |
| Build.ResolvedLineAddsOneEdge | src/main/FileConcatenationApp.java:56-60 | A resolved directive inserts its target exactly once, at its line's position. Repeated directives therefore give repeated edges. |
| Graphs.OrderedIsAcyclic | src/main/FileConcatenationApp.java:102-106 | A graph whose keys can all be listed with every file before the files it requires has no cycle. |
| Graphs.CycleFromPredecessors | src/main/FileConcatenationApp.java:102-104 | Suppose every file in a non-empty set of keys is required by another file of the set. Then the graph has a cycle. |
| CycleSearch.HasCycleFrom | src/main/FileConcatenationApp.java:120-132 | The search terminates (measure: keys outside the path set). The path set stays within the keys and only grows. A miss restores it exactly. A hit leaves the start file in it. |
| CycleSearch.HasCycleAmong | src/main/FileConcatenationApp.java:125-129 | The dependency loop keeps the path set within the keys, and a miss leaves it unchanged. |
| CycleSearch.HasCycleAmongIsAny | src/main/FileConcatenationApp.java:125-131 | The dependency loop hits exactly when the search from some dependency, with the same path set, hits. |
| CycleSearch.HasCycleFromFinds | src/main/FileConcatenationApp.java:120-132 | The search hits exactly when some walk from the file enters the current path or reaches a node lying on a cycle. |
| CycleSearch.FreshSearch | src/main/FileConcatenationApp.java:112-113 | From an empty path set, the search hits exactly when a node on a cycle is reachable from the start. |
| CycleSearch.DetectCycle | src/main/FileConcatenationApp.java:109-118 | There is a report exactly when the graph has a cycle. The reported start is the first key, in iteration order, whose search hits. A cycle is reachable from it. The reported set is the path set that search leaves behind; it contains the start and lies within the keys. |
| TopoSort.TargetsEmit | src/main/FileConcatenationApp.java:94-95 | Emitting a file takes exactly that file's edge occurrences off the pending in-degree counts. |
| TopoSort.TargetsZero | src/main/FileConcatenationApp.java:84-96 | A file's pending count is zero exactly when no file outside the emitted set requires it. |
| TopoSort.RequirersDone | src/main/FileConcatenationApp.java:96-97 | A file whose count reached zero has had every file that requires it emitted already. |
| TopoSort.StuckMeansCycle | src/main/FileConcatenationApp.java:102-104 | Suppose the queue is empty, not all keys were emitted, and every remaining file still has a non-zero count. Then the graph has a cycle. |
| TopoSort.AddOccurrences | src/main/FileConcatenationApp.java:77-79 | Counting one dependency list adds each file's number of occurrences in it to its count, and leaves the other counts alone. |
| TopoSort.CountInDegrees | src/main/FileConcatenationApp.java:72-80 | Every key starts with a count equal to the number of edge occurrences into it, summed over the whole map. |
| TopoSort.SeedQueue | src/main/FileConcatenationApp.java:82-87 | The initial queue holds exactly the files at zero, without repeats, in their relative map iteration order. When every count is zero, it is the whole iteration order. |
| TopoSort.ReleaseOne | src/main/FileConcatenationApp.java:95-98 | One decrement. A file reaching zero is appended to the back of the queue, once. The queue stays duplicate-free, and the files at zero are still exactly the emitted and queued ones. |
| TopoSort.Release | src/main/FileConcatenationApp.java:94-99 | Releasing a file's targets lowers each count by that target's number of occurrences. Newly ready files are appended behind the old queue, and the queued-or-emitted files stay exactly those at zero. |
| TopoSort.EmitHead | src/main/FileConcatenationApp.java:91-92 | Emitting the head keeps the output duplicate-free. The head's counts still cover its own edges, and every file requiring the head was emitted earlier. |
| TopoSort.Dequeue | src/main/FileConcatenationApp.java:90-99 | One turn of the main loop appends the queue's head to the output and preserves the loop invariant. The invariant has three parts: counts are the pending edge occurrences; output and queue are disjoint, duplicate-free keys; output files follow everything that requires them. |
| TopoSort.Drain | src/main/FileConcatenationApp.java:89-100 | The loop ends with an empty queue and the invariant intact. In a graph without edges the output is exactly the initial queue. |
| TopoSort.DrainedState | src/main/FileConcatenationApp.java:102-106 | When the queue runs dry, all keys were emitted exactly when the graph has no cycle. A complete output lists every key with each file before the files it requires. |
| TopoSort.TopologicalSort | src/main/FileConcatenationApp.java:71-107 | No order exactly when the graph has a cycle, and then a cycle report is produced. Otherwise the result is a permutation of the keys of length `size()`, in which every file precedes every file it requires. A graph without edges comes out in the seed order. |
| Scenarios.ChainOrder | src/main/FileConcatenationApp.java:90-99 | For A requires B requires C, the only admissible result is `[A, B, C]`, dependents first. |
| Scenarios.MutualRequireIsCyclic | src/main/FileConcatenationApp.java:102-104 | Two files requiring each other form a cycle, so no order is produced. |
| Scenarios.GreedyCapture | src/main/FileConcatenationApp.java:13 | On `*require 'a.txt'* and 'b.txt'*` the captured path is `a.txt'* and 'b.txt`: the group runs to the last closing marker. |
| Scenarios.EmptyGroupIsNoDirective | src/main/FileConcatenationApp.java:13 | `*require ''*` holds no directive, because the group needs at least one character. |
| Scenarios.MissingTargetDropped | src/main/FileConcatenationApp.java:58-63 | A directive naming an undiscovered file contributes no edge. |

## Left out

- `main`, `findAllTextFiles` and `concatenateFiles`: directory walking, the `.txt` filter and writing the output file are file-system I/O outside the engine.
- Reading files: `BufferedReader`/`FileReader` and `IOException` propagation are not modelled. A fragment's lines are given by the `read` parameter.
- Console output: the warning for an unresolved target, the cycle banner and all message text are not modelled. The cycle report is returned instead of printed.
- `new File(rootDirectory, requiredPath)` and `File.equals`: path resolution is the abstract `resolve` parameter, with no normalisation modelled.
- Regular-expression corner cases: `.` is taken to match every character. Java's `.` rejects line terminators such as U+0085 and U+2028, which `readLine` can leave inside a line.
- `Integer` counts: in-degrees are unbounded integers. A count is at most the number of edges, so 32-bit overflow would need over two billion directive lines.
- Hash-map iteration order: the concrete order of `HashMap` is not modelled. It enters only as the `order` and `seedOrder` parameters.
- TopoSort.TopologicalSort: does not state which dependents-first order the FIFO queue yields for a given seed order, except for graphs without edges. The order depends on the unspecified seed order, so only properties shared by all seed orders are stated.

