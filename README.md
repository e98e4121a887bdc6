# Crawljax state-flow graph, modelled in Dafny

Crawljax records what it crawls in a state-flow graph, `InMemoryStateFlowGraph`. It is an
append-only directed multigraph. Its vertices are the crawled states (`StateVertex`). Two states
are the same state when their stripped DOM is equal. Its edges are the clickables (`Eventable`)
that lead from one state to another. The graph also keeps an id -> state index, a counter of
accepted states, and a counter that hands out the ids of new candidate states.

This project models that class, one method call at a time, and proves what its callers rely on:

- An accepted state is stored once, indexed by its id and counted once.
- A duplicate state changes nothing and gets back the stored equal state.
- Edges only join registered states, and an equal clickable is never stored twice.
- Ids are fresh and increase.
- `canGoTo` is a symmetric single-edge test.
- `getShortestPath` returns a chain of edges from start to end, and no chain is shorter.

Files, one module each:

- `optional.dfy` — `Option`, which stands for a Java reference that may be null.
- `int32.dfy` — Java's 32-bit `int` as `AtomicInteger.incrementAndGet` counts it: `Wrap`, `Increment` and their lemmas.
- `state_names.dfy` — `"state" + id` with the decimal rendering of `Integer.toString`, and a parser that reads the id back.
- `states.dfy` — the values in the graph: `StateVertex`, `Eventable`, `Edge` (a clickable with the source and target it was added with). Vertex equality is `SameState`, that is, equality of `Key(v) = v.strippedDom`.
- `paths.dfy` — directed chains (`IsPath`), exact-length search, and the minimum-hop `ShortestPath`. This module stands in for jgrapht's `DijkstraShortestPath` with unit weights. It also holds the lemmas that make the search complete: search soundness and completeness, and path shortening by pigeonhole.
- `state_flow_graph.dfy` — the class `InMemoryStateFlowGraph`. Its fields are the vertex sequence, the edge triples, the id map and the two counters. Two ghost counts stand for the exit-notifier calls and the `newStateFor` calls. The object invariant `Valid()` is split into `VerticesValid`, `EdgesValid` and `NamesValid`. Mutators are methods with `modifies` clauses. Queries are functions. Two client methods exercise the dedup behaviour.

Modelling decisions, where the code and its design description differ (the code is followed):

- **`correctName` is unused.** The `correctName` flag of `putIfAbsent(StateVertex, boolean)` is never read (lines 104-121), although the doc comment says the name is corrected. `PutIfAbsent` and `PutIndex` therefore both call `PutIfAbsentWith`, and all three promise the same twostate predicate `PutOutcome`.
- **Clickable equality is graph-wide.** `addEdge` returns false whenever a clickable equal to the given one is already *anywhere* in the graph. The explicit first check only covers an equal edge between the same two states. The broader rule comes from the multigraph's contract that the doc comment restates (lines 136-138). A design that rejects only the exact (source, target, clickable) triple would accept more edges. The model therefore keeps clickables pairwise distinct.
- **No path gives None.** When no path exists, `getShortestPath` does not return an empty list. The library returns null and `ImmutableList.copyOf(null)` throws. The model returns `None` for that case.
- **Counters wrap at 32 bits.** `stateCounter` equals `Wrap(|vertices|)`. The k-th `newStateFor` call returns id `Wrap(k)`. The counters therefore equal the plain counts only up to 2^31-1.
- **Lookups throw on unregistered states.** jgrapht throws `IllegalArgumentException` when `outgoingEdgesOf`, `incomingEdgesOf`, `addEdge` or the shortest-path search gets a vertex that is not in the graph. These become `HasVertex` preconditions. `containsEdge` does not throw, so `CanGoTo` has no precondition.
- **The index id is 0.** The value of `StateVertex.INDEX_ID` is not part of this model. `States.IndexId` takes Crawljax's value, 0.
- **Ids can collide in the index.** `stateById.put` overwrites an entry when two distinct states carry the same id. The model does the same. The invariant only says that each index entry is a registered vertex with that id, and that every vertex's id is indexed.

## Model

| member | source | states |
|---|---|---|
| StateFlowGraph.InMemoryStateFlowGraph.constructor | core/src/main/java/com/crawljax/core/state/InMemoryStateFlowGraph.java:55-64 | a new graph is valid and empty: no vertices, edges or index entries, both counters 0 |
| StateFlowGraph.InMemoryStateFlowGraph.PutIfAbsentWith | core/src/main/java/com/crawljax/core/state/InMemoryStateFlowGraph.java:104-122 | with no equal vertex stored: appends v, maps v.id to v, increments the counter (32-bit), notifies once, returns None. With one stored: changes nothing and returns that stored equal vertex. Keeps the invariant (no duplicates, counter = number of vertices) |
| StateFlowGraph.InMemoryStateFlowGraph.PutIfAbsent | core/src/main/java/com/crawljax/core/state/InMemoryStateFlowGraph.java:66-82 | the same outcome `PutOutcome` as PutIfAbsentWith |
| StateFlowGraph.InMemoryStateFlowGraph.PutIndex | core/src/main/java/com/crawljax/core/state/InMemoryStateFlowGraph.java:84-86 | exactly the outcome of PutIfAbsent, since the flag is unused |
| StateFlowGraph.InMemoryStateFlowGraph.GetStateInGraph | core/src/main/java/com/crawljax/core/state/InMemoryStateFlowGraph.java:237-249 | the scan returns a stored vertex equal to the argument, or None exactly when no stored vertex is equal |
| StateFlowGraph.InMemoryStateFlowGraph.GetById | core/src/main/java/com/crawljax/core/state/InMemoryStateFlowGraph.java:124-127 | Some exactly when a stored vertex has that id, and then a stored vertex with that id |
| StateFlowGraph.InMemoryStateFlowGraph.GetInitialState | core/src/main/java/com/crawljax/core/state/InMemoryStateFlowGraph.java:129-132 | Some exactly when a stored vertex has the index id, and then such a vertex |
| StateFlowGraph.InMemoryStateFlowGraph.AddEdge | core/src/main/java/com/crawljax/core/state/InMemoryStateFlowGraph.java:134-165 | requires both endpoints registered. Returns true exactly when the clickable is not yet in the graph. Then it appends exactly that one triple and the clickable set grows by it; otherwise the edges are unchanged. Vertices, index and counters are untouched (frame) |
| StateFlowGraph.InMemoryStateFlowGraph.AppendEdge | core/src/main/java/com/crawljax/core/state/InMemoryStateFlowGraph.java:160 | adding a new clickable between registered vertices appends one triple and keeps the invariant |
| StateFlowGraph.InMemoryStateFlowGraph.OutgoingClickables | core/src/main/java/com/crawljax/core/state/InMemoryStateFlowGraph.java:177-185 | an edge's clickable is in the result exactly when the edge leaves v. The result is a subset of all clickables |
| StateFlowGraph.InMemoryStateFlowGraph.IncomingClickable | core/src/main/java/com/crawljax/core/state/InMemoryStateFlowGraph.java:187-195 | an edge's clickable is in the result exactly when the edge enters v. The result is a subset of all clickables |
| StateFlowGraph.InMemoryStateFlowGraph.ClickableDeterminesEdge | core/src/main/java/com/crawljax/core/state/InMemoryStateFlowGraph.java:153-165 | in a valid graph, two stored edges with the same clickable are the same edge |
| StateFlowGraph.InMemoryStateFlowGraph.CanGoTo | core/src/main/java/com/crawljax/core/state/InMemoryStateFlowGraph.java:197-205 | true exactly when a one-edge chain leads from source to target or from target to source |
| StateFlowGraph.InMemoryStateFlowGraph.CanGoToSymmetric | core/src/main/java/com/crawljax/core/state/InMemoryStateFlowGraph.java:198-205 | canGoTo(a, b) == canGoTo(b, a) |
| StateFlowGraph.InMemoryStateFlowGraph.HasEdgeByClickables | core/src/main/java/com/crawljax/core/state/InMemoryStateFlowGraph.java:177-201 | an edge a -> b exists exactly when a's outgoing and b's incoming clickables intersect |
| StateFlowGraph.InMemoryStateFlowGraph.CanGoToByClickables | core/src/main/java/com/crawljax/core/state/InMemoryStateFlowGraph.java:177-205 | canGoTo(a, b) exactly when outgoing(a) meets incoming(b) or outgoing(b) meets incoming(a) |
| StateFlowGraph.InMemoryStateFlowGraph.ShortestPath | core/src/main/java/com/crawljax/core/state/InMemoryStateFlowGraph.java:207-215 | None exactly when no chain leads from start to end. Otherwise the clickables of a chain from start to end, no longer than any other such chain. Empty when start equals end |
| StateFlowGraph.InMemoryStateFlowGraph.AllStates | core/src/main/java/com/crawljax/core/state/InMemoryStateFlowGraph.java:217-225 | exactly the stored vertices, one per vertex, no two of them equal |
| StateFlowGraph.InMemoryStateFlowGraph.AllEdges | core/src/main/java/com/crawljax/core/state/InMemoryStateFlowGraph.java:227-235 | exactly the stored clickables, as many as there are edges |
| StateFlowGraph.InMemoryStateFlowGraph.NumberOfStates | core/src/main/java/com/crawljax/core/state/InMemoryStateFlowGraph.java:40-44 | the counter is the size of the vertex set as a 32-bit int, so it equals that size up to 2^31-1 |
| StateFlowGraph.InMemoryStateFlowGraph.NewStateFor | core/src/main/java/com/crawljax/core/state/InMemoryStateFlowGraph.java:272-275 | increments the name counter. Returns a candidate with that id, named "state"+id, with the given url, dom and stripped DOM. The k-th call gets id Wrap(k). Graph and state counter are untouched (frame) |
| StateFlowGraph.IssuedIdsDistinct | core/src/main/java/com/crawljax/core/state/InMemoryStateFlowGraph.java:45 | the ids of any two of the first 2^32 newStateFor calls differ |
| StateFlowGraph.IssuedIdsIncrease | core/src/main/java/com/crawljax/core/state/InMemoryStateFlowGraph.java:273 | the ids of the first 2^31-1 calls strictly increase |
| StateFlowGraph.DuplicateCandidates | core/src/main/java/com/crawljax/core/state/InMemoryStateFlowGraph.java:104-122 | two candidates with equal stripped DOM: the first returns None, the second returns the first, and the count is 1 |
| StateFlowGraph.DuplicateEdge | core/src/main/java/com/crawljax/core/state/InMemoryStateFlowGraph.java:153-165 | the same edge added twice: true, then false, and the graph holds one clickable |
| StateNames.NewStateName | core/src/main/java/com/crawljax/core/state/InMemoryStateFlowGraph.java:277-279 | the name starts with "state" and the id can be parsed back from it |
| StateNames.ParseIntString | core/src/main/java/com/crawljax/core/state/InMemoryStateFlowGraph.java:278 | parsing the decimal rendering of an int gives back the int |
| StateNames.NewStateNameInjective | core/src/main/java/com/crawljax/core/state/InMemoryStateFlowGraph.java:277-279 | distinct ids give distinct names |
| Int32.IncrementWrap | core/src/main/java/com/crawljax/core/state/InMemoryStateFlowGraph.java:110 | incrementAndGet on a counter that holds n increments holds n + 1 increments |
| Int32.WrapsAtMax | core/src/main/java/com/crawljax/core/state/InMemoryStateFlowGraph.java:273 | after 2^31-1 increments the next value is -2^31 |
| Paths.ShortestPath | core/src/main/java/com/crawljax/core/state/InMemoryStateFlowGraph.java:211 | None exactly when no chain exists. Otherwise a chain from start to end that no chain beats in length, and the empty chain when start equals end |
| Paths.SearchCorrect | core/src/main/java/com/crawljax/core/state/InMemoryStateFlowGraph.java:211 | searching lengths k..bound in order finds a shortest chain, or shows every chain is longer than bound |
| Paths.FindPathSound | core/src/main/java/com/crawljax/core/state/InMemoryStateFlowGraph.java:211 | a found chain is a chain of the requested length |
| Paths.FindPathComplete | core/src/main/java/com/crawljax/core/state/InMemoryStateFlowGraph.java:211 | a chain of some length exists only if the search for that length finds one |
| Paths.ShortChain | core/src/main/java/com/crawljax/core/state/InMemoryStateFlowGraph.java:211 | if two registered states are connected, a chain with fewer edges than there are states connects them |
| Paths.HasEdgeIsOneHop | core/src/main/java/com/crawljax/core/state/InMemoryStateFlowGraph.java:201 | containsEdge(a, b) is exactly the existence of a one-edge chain from a to b |
| Paths.ThreeStatesExample | core/src/main/java/com/crawljax/core/state/InMemoryStateFlowGraph.java:207-215 | with A->B, B->C, A->C the path A to C is the single edge A->C, A to A is empty, and C to A is None |
| Paths.TwoHopsExample | core/src/main/java/com/crawljax/core/state/InMemoryStateFlowGraph.java:197-215 | with A->B, B->C only, no edge joins A and C, yet the shortest path A to C is the two edges |

## Left out

- The `ReentrantReadWriteLock`, and the atomicity of `AtomicInteger` and `ConcurrentMap`. Every method is one atomic step on a single thread, so the window in which the counter runs ahead of the vertex set does not arise.
- `getMeanStateStringSize`: a floating-point mean (commons-math `Mean`) over `String.getBytes()` lengths in the platform charset, cast to int.
- `toString`, SLF4J logging, `Serializable` and the injection annotations. None of them carries behaviour.
- The internals of jgrapht's `DirectedMultigraph` and `DijkstraShortestPath`. The graph is a vertex sequence plus edge triples looked up by key, and the shortest path is specified as a minimum-hop chain.
- ShortestPath: which of several equally short chains is returned is not modelled. The library's choice depends on its iteration order; the model promises only some shortest chain.
- `ExitNotifier` is reduced to a ghost count of `incrementNumberOfStates` calls.
- The bodies of `StateVertex.equals` and `Eventable.equals` are not part of this model. States compare by stripped DOM, and clickables by value.
- The `NullPointerException` for a null vertex: Dafny values cannot be null.
