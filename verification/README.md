# Leveling: a layered graph layout, modelled in Dafny

`Leveling<V>` takes a directed graph given as a map from a node label to the
labels of its successors, and computes a layered ("Sugiyama style")
drawing of it. It works in four steps:

1. **Ingestion** (`initNodes`). One node is made per label, in the order
   the labels are first mentioned. One edge is made per successor entry,
   in map order. A null label is rejected.
2. **Levels.**
   - `breakCycles` repeatedly removes the edge that closes the shortest
     cycle, until the graph is acyclic.
   - `assignMinLevel` gives every node its longest-path depth from a
     source.
   - `normalizeLevel`, started from every level-0 node, pulls each node
     with successors down to just above its lowest successor.
   - `reinitNodes` restores the original edges.
3. **Construction** (`getGraphicElement`).
   - Every node becomes a Vertex on its level.
   - An edge spanning more than one level is drawn through a chain of
     forward Dummy elements.
   - An edge that does not go downwards (it closes a cycle) is drawn
     through a chain of reversed dummies, from the source's level up to
     the target's.
   - Every element is added to its Level (`initLevel`, `Level.add`), which
     keeps the sum of the widths and the maximum height.
4. **Placement.**
   - The common width is that of the widest level.
   - The levels are stacked top to bottom in increasing index order.
   - `Level.layout` centres each level's row and places its elements left
     to right, SPACING apart.

`checkGraphIntegrity` states what the levels must satisfy: every edge
whose target is not on a lower level must lie on a cycle.

The model is a set of pure functions over immutable values:

- The working graph is an edge list in insertion order. A node's `in` and
  `out` lists are its projections `Ins` and `Outs`.
- The Java sentinels are modelled as `Option` (None), and the exceptions
  as a `Result`:
  - `UNMARKED`, the `Integer.MAX_VALUE` value in the level table;
  - the `MAX_VALUE` accumulators of `isConnectedTo`, `breakCycles` and
    `normalizeLevel`.
- The element objects live in an arena `Scene` indexed by element
  number.
- The coordinates that `setPos` stores are a map from element index to
  point.

The modules follow the structure of the source:

| module | file | what |
|---|---|---|
| Base | base.dfy | Result/Option, `indexOf`, `List.remove` |
| Graphs | graphs.dfy | edge lists, adjacency, paths, reachability, acyclicity |
| Ingestion | ingestion.dfy | `initNodes`, `reinitNodes` |
| Connectivity | connectivity.dfy | `Node.isConnectedTo` |
| CycleBreaking | cycles.dfy | `breakCycles` |
| Levels | levels.dfy | `Node.assignMinLevel` |
| Normalization | normalize.dfy | `Node.normalizeLevel` and the loop of setGraph over level-0 nodes |
| Elements | elements.dfy | `GraphElement`, `Vertex`, `Dummy`, `Level.add`, `initLevel`, `pos` |
| Counting | counting.dfy | what `Node.getGraphicElement` builds, counted: elements per edge, `in` entries per node |
| Construction | build.dfy | `Node.getGraphicElement` and the vertex loop of setGraph |
| Placement | placement.dfy | the width and stacking part of setGraph, `Level.layout`, `hasInEdges`, `hasOutEdges`, the anchors of `Vertex.src`/`dst` |
| Pipeline | pipeline.dfy | `setGraph` end to end, `checkGraphIntegrity` |

Two behaviours of the code worth noting:

- **An empty graph.** setGraph reaches `i.next()` (Leveling.java:100) on
  an empty TreeMap, which throws NoSuchElementException. `Pipeline.SetGraph` returns
  `Err(NoSuchElement)` in that case.
- **Centring.** `Level.width` is the sum of the widths without the
  spacing. So `layout` starts a row at `(totalWidth - width) / 2`, and a
  row with more than one element ends `(k - 1) * SPACING` right of the
  centred extent. `Placement.RowExtent` states this.

## Model

| member | source | states |
|---|---|---|
| Base.IndexOf | src/at/searles/graphdrawing/Leveling.java:462-464 | -1 exactly when the element is absent; otherwise the index of its first occurrence |
| Base.RemoveFirst | src/at/searles/graphdrawing/Leveling.java:230-231 | `List.remove(Object)`: removes exactly one occurrence, the first, when there is one; the multiset loses one copy |
| Graphs.Outs | src/at/searles/graphdrawing/Leveling.java:237-238 | a node's out list holds exactly its successors in the edge list |
| Graphs.Ins | src/at/searles/graphdrawing/Leveling.java:237-238 | a node's in list holds exactly its predecessors in the edge list |
| Graphs.AddEdgeAppends | src/at/searles/graphdrawing/Leveling.java:176-177 | appending an edge appends its target to the source's out list and its source to the target's in list, and changes no other list |
| Graphs.RemoveEdgeAdjacency | src/at/searles/graphdrawing/Leveling.java:230-231 | removing the first occurrence of edge v->u from the edge list is the same as `v.out.remove(u)` plus `u.in.remove(v)`; every other list is unchanged |
| Ingestion.AddLabel | src/at/searles/graphdrawing/Leveling.java:152-158 | the label is present afterwards and the earlier labels keep their positions |
| Ingestion.AddKeys | src/at/searles/graphdrawing/Leveling.java:148-159 | the first pass fails with IllegalArgument exactly when some key is null |
| Ingestion.AddSuccs | src/at/searles/graphdrawing/Leveling.java:167-178 | the inner loop fails with IllegalArgument exactly when some successor label is null; otherwise it adds one edge per entry and keeps the existing labels and edges |
| Ingestion.AddEdges | src/at/searles/graphdrawing/Leveling.java:161-179 | the second pass fails with IllegalArgument exactly when some successor label is null |
| Ingestion.Ingest | src/at/searles/graphdrawing/Leveling.java:144-179 | fails exactly when a null label is mentioned; otherwise the node labels are the distinct mentioned labels in order of first mention, and the edges are the map's pairs in map order, all between existing nodes |
| Ingestion.TracksStep | src/at/searles/graphdrawing/Leveling.java:152-158 | get-or-create keeps the node list equal to the distinct mentions in order of first mention |
| Ingestion.AddSuccsTracks | src/at/searles/graphdrawing/Leveling.java:167-174 | successor labels that have not been seen become new nodes in order of mention |
| Ingestion.AddEdgesTracks | src/at/searles/graphdrawing/Leveling.java:164-179 | after the second pass, the nodes are the distinct labels among the keys and then the successors |
| Ingestion.AddSuccsEdges | src/at/searles/graphdrawing/Leveling.java:167-178 | the edges added for one key are exactly its successor pairs, in order |
| Ingestion.AddEdgesEdges | src/at/searles/graphdrawing/Leveling.java:164-179 | the edges added by the second pass are exactly the map's pairs, in order |
| Ingestion.Reinit | src/at/searles/graphdrawing/Leveling.java:182-198 | reinitNodes rebuilds an edge list naming exactly the map's pairs, in order |
| Ingestion.ReinitSuccs | src/at/searles/graphdrawing/Leveling.java:190-196 | the inner loop of reinitNodes makes exactly one key's successor pairs |
| Ingestion.ReinitRestores | src/at/searles/graphdrawing/Leveling.java:182-198 | after a successful initNodes, reinitNodes yields exactly the edges initNodes made, whatever breakCycles removed in between |
| Connectivity.IsConnectedTo | src/at/searles/graphdrawing/Leveling.java:254-274 | the marked set is restored on return, and the answer is -1 or a length |
| Connectivity.ScanOuts | src/at/searles/graphdrawing/Leveling.java:263-269 | the loop over `out` leaves the marked set as it found it |
| Connectivity.ConnectedCorrect | src/at/searles/graphdrawing/Leveling.java:254-274 | the answer is the length of a shortest simple path to src that avoids the marked nodes, and -1 when there is none |
| Connectivity.ScanKeepsBest | src/at/searles/graphdrawing/Leveling.java:266-268 | the running minimum never increases |
| Connectivity.ScanSound | src/at/searles/graphdrawing/Leveling.java:263-269 | the running minimum is the start value or is witnessed by a successor's path |
| Connectivity.ScanComplete | src/at/searles/graphdrawing/Leveling.java:263-269 | no successor offers a shorter path than the running minimum |
| Connectivity.BackPathLength | src/at/searles/graphdrawing/Leveling.java:215 | with nothing marked, -1 exactly when there is no path; otherwise the length of a shortest path among all paths, and 0 from a node to itself |
| Connectivity.ShortestOfAll | src/at/searles/graphdrawing/Leveling.java:254-274 | with nothing marked, no path at all (simple or not) is shorter than the answer |
| CycleBreaking.Row | src/at/searles/graphdrawing/Leveling.java:214 | the candidates for node u are its in-edges, in `in` order |
| CycleBreaking.Weigh | src/at/searles/graphdrawing/Leveling.java:215 | each candidate edge carries its back-path length |
| CycleBreaking.FirstMinSpec | src/at/searles/graphdrawing/Leveling.java:217-222 | the strict `<` keeps the first candidate of least non-negative length; there is none exactly when every length is -1 |
| CycleBreaking.FoldFirstMin | src/at/searles/graphdrawing/Leveling.java:213-224 | carrying the minimum across the nested loops equals taking the first minimum of the concatenated candidate list |
| CycleBreaking.ScanInsFold | src/at/searles/graphdrawing/Leveling.java:214-223 | the inner loop is that fold over one node's in-edges |
| CycleBreaking.ScanNodesFold | src/at/searles/graphdrawing/Leveling.java:213-224 | the outer loop is that fold over the nodes' rows in node order |
| CycleBreaking.ScanOrderSound | src/at/searles/graphdrawing/Leveling.java:213-214 | every scanned candidate is an edge of the graph |
| CycleBreaking.ScanOrderComplete | src/at/searles/graphdrawing/Leveling.java:213-214 | every edge of the graph is scanned |
| CycleBreaking.ScanOrderContents | src/at/searles/graphdrawing/Leveling.java:213-214 | the scan visits exactly the edges of the graph |
| CycleBreaking.ScanIsFirstMin | src/at/searles/graphdrawing/Leveling.java:206-224 | the scan's result is the first minimum of all candidates in scan order |
| CycleBreaking.FindEdgeNone | src/at/searles/graphdrawing/Leveling.java:226-228 | the loop exits exactly when the graph is acyclic |
| CycleBreaking.FindEdgeSome | src/at/searles/graphdrawing/Leveling.java:213-224 | a chosen edge is in the graph, closes a cycle of the shortest length over all cyclic edges, and is the first such edge in scan order |
| CycleBreaking.FindEdge | src/at/searles/graphdrawing/Leveling.java:205-228 | one round finds no edge exactly when the graph is acyclic; otherwise it picks the first edge in scan order that closes a shortest cycle |
| CycleBreaking.BreakCycles | src/at/searles/graphdrawing/Leveling.java:200-233 | the result is acyclic; the kept and removed edges together are the input as a multiset; every removed edge closes a cycle of the input |
| CycleBreaking.PutBack | src/at/searles/graphdrawing/Leveling.java:230-231 | the removed edge plus what remains accounts for the whole edge list |
| CycleBreaking.BreakLast | src/at/searles/graphdrawing/Leveling.java:226-231 | a round whose deletion leaves an acyclic graph is the last: the loop ends with that one edge removed |
| CycleBreaking.TwoCycleTieBreak | src/at/searles/graphdrawing/Leveling.java:213-231 | on 0 -> 1 -> 0 both edges close a cycle of the same length; the strict `<` keeps the first one scanned, 1 -> 0 (node 0's in-edge), so exactly that edge is removed and 0 -> 1 is kept |
| Levels.PredMaxSpec | src/at/searles/graphdrawing/Leveling.java:284-290 | the maximum over the predecessors bounds all their levels and is attained by one of them |
| Levels.MinLevelEdge | src/at/searles/graphdrawing/Leveling.java:276-297 | on an acyclic graph, levels strictly grow along every edge |
| Levels.MinLevelTight | src/at/searles/graphdrawing/Leveling.java:281-292 | level 0 exactly for nodes without in-edges; every other node is one below some predecessor |
| Levels.MinLevelLeast | src/at/searles/graphdrawing/Leveling.java:276-297 | the assigned level is the least non-negative levelling that grows along every edge |
| Levels.AssignMinLevel | src/at/searles/graphdrawing/Leveling.java:276-297 | the memoised recursion returns the minimum level and records it; it never changes a recorded level and records only ancestors |
| Levels.MaxPreds | src/at/searles/graphdrawing/Leveling.java:285-290 | the loop over `in` computes the maximum of the predecessors' levels, and records each of them |
| Levels.AssignAll | src/at/searles/graphdrawing/Leveling.java:51-53 | after the loop of setGraph every node has its minimum level |
| Normalization.SuccMinSpec | src/at/searles/graphdrawing/Leveling.java:310-313 | the minimum over the successors' pulled levels bounds all of them and is attained by one |
| Normalization.PulledEdge | src/at/searles/graphdrawing/Leveling.java:299-320 | pulled levels still grow strictly along every edge |
| Normalization.PulledTight | src/at/searles/graphdrawing/Leveling.java:306-319 | sinks keep their level; every other node ends one below its lowest successor |
| Normalization.PulledGreatest | src/at/searles/graphdrawing/Leveling.java:299-320 | the pulled levels are the greatest levelling that fixes the sinks and grows along every edge |
| Normalization.PulledAboveMin | src/at/searles/graphdrawing/Leveling.java:299-320 | pulling never lowers a node below its minimum level |
| Normalization.PulledSinks | src/at/searles/graphdrawing/Leveling.java:306 | the pulled levels depend only on the sinks' levels |
| Normalization.Normalize | src/at/searles/graphdrawing/Leveling.java:299-320 | normalizeLevel from x gives every node reachable from x its pulled level and leaves every other node, and every sink, as it was; no level ends above its pulled value, so the `assert` at line 315 holds on the recursive calls too |
| Normalization.NormalizeOuts | src/at/searles/graphdrawing/Leveling.java:308-313 | the loop over `out` normalises everything reachable from the successors, and its running minimum is the least pulled successor level |
| Normalization.NormalizeStep | src/at/searles/graphdrawing/Leveling.java:317-319 | setting x one below the minimum completes normalisation from x |
| Normalization.NormalizeOutsStep | src/at/searles/graphdrawing/Leveling.java:310-313 | one iteration of the loop over `out` keeps the loop's invariant |
| Normalization.MinNextAboveLevel | src/at/searles/graphdrawing/Leveling.java:306-315 | when x has successors and its level is not above its pulled value, the loop over `out` leaves x's own level unchanged and ends with a minimum strictly above it: the Java `assert minNextLevel > this.level` holds |
| Normalization.NotAbovePulledKept | src/at/searles/graphdrawing/Leveling.java:317-319 | replacing levels by their pulled values, sinks untouched, keeps every level at or below its pulled value |
| Normalization.HasSource | src/at/searles/graphdrawing/Leveling.java:55-60 | every node is reachable from a level-0 node, so starting only there reaches everything |
| Normalization.NormalizeAll | src/at/searles/graphdrawing/Leveling.java:55-60 | after the loop of setGraph every node has its pulled level |
| Normalization.LoopStep | src/at/searles/graphdrawing/Leveling.java:55 | during the loop, a node has level 0 exactly when it has no in-edges, so the loop's test selects the sources |
| Normalization.NoNewSource | src/at/searles/graphdrawing/Leveling.java:55 | a node with in-edges adds nothing to the set of nodes normalised so far |
| Normalization.NormalizeFromSource | src/at/searles/graphdrawing/Leveling.java:55-60 | normalising from one more source extends the invariant of the loop |
| Normalization.NotAbovePulledInLoop | src/at/searles/graphdrawing/Leveling.java:51-60 | in the loop of setGraph every level is its minimum or its pulled value, hence not above its pulled value, so the assert in normalizeLevel holds on every call the loop makes |
| Normalization.PinnedChain | src/at/searles/graphdrawing/Leveling.java:276-320 | a node that pulling leaves at its minimum level has, at every level from that minimum down to 0, some node with that pulled level, and one at 0 that reaches it |
| Normalization.UpToSink | src/at/searles/graphdrawing/Leveling.java:306-319 | every node reaches a sink whose pulled level is at least its own |
| Normalization.PulledNoGaps | src/at/searles/graphdrawing/Leveling.java:55-60 | after pulling from the minimum levels, every level from 0 up to any node's is taken by some node, and every node shares a descendant with a node at level 0 |
| Elements.MaxHeightSpec | src/at/searles/graphdrawing/Leveling.java:391-403 | a level's height is -LEVEL_GAP or the preferred height of one member, and bounds every member's |
| Elements.SumWidthNonNegative | src/at/searles/graphdrawing/Leveling.java:392-402 | the summed width of elements with non-negative widths is non-negative |
| Elements.SumsAgree | src/at/searles/graphdrawing/Leveling.java:398-403 | a level's width and height depend only on its members |
| Elements.OldLevelsKept | src/at/searles/graphdrawing/Leveling.java:447-456 | registering a new element keeps every other level consistent |
| Elements.NewLevelOk | src/at/searles/graphdrawing/Leveling.java:398-403 | Level.add keeps width equal to the sum of the members' widths and height equal to their maximum preferred height |
| Elements.FreshId | src/at/searles/graphdrawing/Leveling.java:399 | the index a new element gets is in no level yet: the Java `assert !elements.contains(element)` holds |
| Elements.SumsAdd | src/at/searles/graphdrawing/Leveling.java:400-402 | after Level.add the width is the sum and the height the maximum over the members including the new one |
| Elements.MembersAdd | src/at/searles/graphdrawing/Leveling.java:402 | Level.add appends the new element: the members stay distinct and all lie on the level |
| Elements.RegisterOk | src/at/searles/graphdrawing/Leveling.java:447-456 | initLevel adds a fresh element (the Java `assert !elements.contains`) and keeps every level consistent |
| Elements.NewElement | src/at/searles/graphdrawing/Leveling.java:447-456 | a new element is appended to its level, which is created if absent; other levels are unchanged |
| Elements.NewDummy | src/at/searles/graphdrawing/Leveling.java:695-716 | a Dummy has width 0, no successor yet, and empty lists |
| Elements.SetSucc | src/at/searles/graphdrawing/Leveling.java:344-376 | `dummy.succ = ...` sets only that link |
| Elements.AddOut | src/at/searles/graphdrawing/Leveling.java:342-379 | `out.add` appends to that one list |
| Elements.AddIn | src/at/searles/graphdrawing/Leveling.java:354-366 | `in.add` appends to that one list |
| Elements.ForwardLoop | src/at/searles/graphdrawing/Leveling.java:344-354 | the forward loop adds exactly one new forward dummy per level from l up to the target's, and chains them by succ after the current dummy (no older element joins the chain), the last one entering the target's `in` list; that list gains exactly one entry, and no other `in` or `out` list changes |
| Elements.DummyAfter | src/at/searles/graphdrawing/Leveling.java:345-350 | a new forward dummy is linked as the current one's successor |
| Elements.ForwardStep | src/at/searles/graphdrawing/Leveling.java:344-351 | prefixing a dummy extends a forward chain by one level |
| Elements.ChainCons | src/at/searles/graphdrawing/Leveling.java:344-351 | the same, on the chain's element list |
| Elements.ReversedLoop | src/at/searles/graphdrawing/Leveling.java:368-379 | the reversed loop adds exactly one new reversed dummy per level from l up to the source's, chained by succ down to the current dummy (no older element joins the chain); the highest is the one new entry of the source's `out` list, and no `in` list changes |
| Elements.DummyBefore | src/at/searles/graphdrawing/Leveling.java:369-375 | a new reversed dummy points at the previous one |
| Elements.ReversedStep | src/at/searles/graphdrawing/Leveling.java:368-376 | prefixing a dummy extends a reversed chain by one level |
| Elements.ReversedLast | src/at/searles/graphdrawing/Leveling.java:378-379 | after the loop the highest dummy is the last entry of the source's `out` list and starts a one-dummy chain |
| Elements.Pos | src/at/searles/graphdrawing/Leveling.java:462-464 | pos() is the index of the element in its level's list |
| Elements.PosInjective | src/at/searles/graphdrawing/Leveling.java:462-464 | the element at index i of a level has pos() i |
| Construction.Connect | src/at/searles/graphdrawing/Leveling.java:328-380 | one out-edge is wired with exactly DummyCount of its levels in new dummies (each numbered from the old arena size on), through one new `out` entry; the target's `in` list gains exactly one entry, and no other `in` or `out` list changes |
| Construction.ConnectDirect | src/at/searles/graphdrawing/Leveling.java:355-359 | an edge to the next level is a direct link in both lists, with no new element and one new `in` entry at the target |
| Construction.ConnectForward | src/at/searles/graphdrawing/Leveling.java:334-354 | a longer downward edge gets one new forward dummy per level strictly between, and one new `in` entry at the target |
| Construction.ConnectReversed | src/at/searles/graphdrawing/Leveling.java:360-380 | an edge that does not go down gets one new reversed dummy per level from the target's to the source's, and one new `in` entry at the target |
| Construction.ReversedHead | src/at/searles/graphdrawing/Leveling.java:362-366 | the lowest dummy of the cycle case is new, reversed, on the target's level, links to the target and is the one new entry of its `in` list |
| Construction.NewVertex | src/at/searles/graphdrawing/Leveling.java:323-327 | a node's vertex is created once, on its node's level with the node's width, and cached |
| Construction.GetVertex | src/at/searles/graphdrawing/Leveling.java:322-385 | returns the cached vertex unchanged if there is one; otherwise every node that gets its vertex during the call has all its out-edges drawn; and the arena count and the `in` entries stay those of the drawn edges |
| Construction.ConnectAll | src/at/searles/graphdrawing/Leveling.java:328-381 | the loop over `out` draws every out-edge, in `out` order, keeping the counts of the drawn edges |
| Construction.ConnectOne | src/at/searles/graphdrawing/Leveling.java:329-380 | one iteration draws the next out-edge, keeps the earlier ones, and adds exactly that edge's dummies and `in` entry to the counts |
| Construction.BuildAll | src/at/searles/graphdrawing/Leveling.java:75-79 | after the vertex loop every node has exactly one vertex carrying its level and width, and all its out-edges are drawn; the arena holds exactly the n vertices plus DummyCount dummies per edge, and each vertex has one `in` entry per in-edge of its node; no node means no element |
| Construction.VertexLoop | src/at/searles/graphdrawing/Leveling.java:74-79 | the loop requests every node's vertex, keeping the bookkeeping of the construction on every round |
| Construction.VertexStep | src/at/searles/graphdrawing/Leveling.java:78 | one round gives the next node its vertex and leaves every node with a vertex fully drawn |
| Construction.BuildEnd | src/at/searles/graphdrawing/Leveling.java:75-79 | once every node is requested, the arena and `in` counts are those of the whole edge list |
| Counting.TallyEmpty | src/at/searles/graphdrawing/Leveling.java:75 | before the loop there is no element and nothing is drawn |
| Counting.TallyNewVertex | src/at/searles/graphdrawing/Leveling.java:323-326 | `new Vertex(this)` adds one element and an empty `in` list, and draws no edge |
| Counting.ConnectWired | src/at/searles/graphdrawing/Leveling.java:328-380 | drawing one edge makes exactly that edge of `Node.out` drawn, and no other |
| Counting.TallyConnect | src/at/searles/graphdrawing/Leveling.java:328-380 | drawing the next out-edge of x with DummyCount new dummies and one new `in` entry at its target keeps the counts |
| Counting.DummyTermsStep | src/at/searles/graphdrawing/Leveling.java:328-380 | drawing one edge adds its DummyCount to the dummies of the drawn edges |
| Counting.InTermsStep | src/at/searles/graphdrawing/Leveling.java:328-380 | drawing one edge into b adds one to b's drawn in-edges, and none to any other node's |
| Counting.OutTermsSnoc | src/at/searles/graphdrawing/Leveling.java:176-177 | adding an edge adds its DummyCount to its source's term only |
| Counting.DummiesRegroup | src/at/searles/graphdrawing/Leveling.java:161-179 | summing DummyCount over each node's `out` list is summing it over the edge list |
| Counting.InsRegroup | src/at/searles/graphdrawing/Leveling.java:161-179 | counting the occurrences of b over all `out` lists gives the length of b's `in` list |
| Counting.ElemsDone | src/at/searles/graphdrawing/Leveling.java:75-79 | with every node drawn, the arena holds n plus the sum of DummyCount over the edges |
| Counting.InsDone | src/at/searles/graphdrawing/Leveling.java:75-79 | with every node drawn, b's vertex has one `in` entry per in-edge of b |
| Counting.TallyDone | src/at/searles/graphdrawing/Leveling.java:75-79 | once every vertex has all its `out` entries, the arena holds n vertices plus DummyCount dummies per edge, and every vertex one `in` entry per in-edge |
| Placement.MinKey | src/at/searles/graphdrawing/Leveling.java:76 | the least key of a non-empty key set |
| Placement.SortedKeys | src/at/searles/graphdrawing/Leveling.java:76-98 | TreeMap iteration visits exactly the keys, in strictly increasing order |
| Placement.MaxWidthSpec | src/at/searles/graphdrawing/Leveling.java:88-92 | the common width is at least 0 and every level's width, and is 0 or one of them |
| Placement.AnyVertexWith | src/at/searles/graphdrawing/Leveling.java:414-432 | hasInEdges/hasOutEdges hold exactly when some member is a Vertex with a non-empty list |
| Placement.LayoutRowAt | src/at/searles/graphdrawing/Leveling.java:405-412 | the p-th member is placed at the row start plus the widths and spacings of the members before it |
| Placement.LayoutRowElse | src/at/searles/graphdrawing/Leveling.java:405-412 | layout does not move any element outside the level |
| Placement.LayoutRowKeys | src/at/searles/graphdrawing/Leveling.java:405-412 | layout places only the level's members |
| Placement.RowOrdered | src/at/searles/graphdrawing/Leveling.java:408-411 | within a row the elements do not overlap: each starts at least its predecessor's width plus SPACING further right |
| Placement.RowExtent | src/at/searles/graphdrawing/Leveling.java:405-411 | a row's right end lies (k-1)·SPACING beyond the centred extent of its summed width |
| Placement.TopNext | src/at/searles/graphdrawing/Leveling.java:106-112 | each level starts its predecessor's height plus LEVEL_GAP further down |
| Placement.EmptyLevels | src/at/searles/graphdrawing/Leveling.java:98-100 | there is no level exactly when there is no element |
| Placement.Place | src/at/searles/graphdrawing/Leveling.java:88-117 | fails with NoSuchElement exactly when there is no element; otherwise the common width is non-negative and covers every level |
| Placement.StackAt | src/at/searles/graphdrawing/Leveling.java:105-117 | the stacking loop from level i on puts every element of level i or later at its closed-form position |
| Placement.StackKeep | src/at/searles/graphdrawing/Leveling.java:105-117 | later levels do not move the elements of earlier levels |
| Placement.StackKeys | src/at/searles/graphdrawing/Leveling.java:105-117 | the loop places only elements of the arena |
| Placement.StackHeight | src/at/searles/graphdrawing/Leveling.java:105-117 | the final height is the last level's top plus its height, plus CONTROL_POINT_DISTANCE if it has a vertex with out-edges |
| Placement.PlaceSpec | src/at/searles/graphdrawing/Leveling.java:88-117 | in closed form: every element ends centred in its level's row at its level's top; the width is the widest level; the first level starts lower by CONTROL_POINT_DISTANCE if it has in-edges |
| Placement.AnchorInside | src/at/searles/graphdrawing/Leveling.java:524-542 | an edge's attachment point lies strictly inside the vertex's horizontal extent |
| Placement.AnchorOrdered | src/at/searles/graphdrawing/Leveling.java:524-542 | attachment points follow the order of the `in` (`out`) list, left to right |
| Pipeline.FinalLevelsSpec | src/at/searles/graphdrawing/Leveling.java:47-60 | the final levels are non-negative and grow along every edge kept by cycle breaking; an input edge that does not grow closes a cycle |
| Pipeline.FinalLevelsNoGaps | src/at/searles/graphdrawing/Leveling.java:51-60 | the final levels have no gap: every level from 0 up to any node's is taken; and every node shares a descendant with a level-0 node, so each connected part of the graph has a node at level 0 |
| Pipeline.ConnectedIffReaches | src/at/searles/graphdrawing/Leveling.java:128 | `isConnectedTo(n, new HashSet())` is not -1 exactly when there is a path |
| Pipeline.CheckOutsSpec | src/at/searles/graphdrawing/Leveling.java:125-133 | the inner loop accepts exactly when every successor lies lower or leads back |
| Pipeline.CheckNodesSpec | src/at/searles/graphdrawing/Leveling.java:121-135 | the outer loop accepts exactly when every remaining edge grows in level or lies on a cycle |
| Pipeline.CheckGraphIntegritySpec | src/at/searles/graphdrawing/Leveling.java:120-135 | checkGraphIntegrity holds exactly when every edge grows in level or lies on a cycle |
| Pipeline.IntegrityAfterLayout | src/at/searles/graphdrawing/Leveling.java:45-62 | the levels setGraph computes always pass checkGraphIntegrity |
| Pipeline.AssignLevels | src/at/searles/graphdrawing/Leveling.java:49-60 | breakCycles, the assignMinLevel loop and the normalise loop together give the final levels, which pass checkGraphIntegrity |
| Pipeline.NoLabels | src/at/searles/graphdrawing/Leveling.java:144-159 | there is no node exactly when the map mentions no label |
| Pipeline.SetGraph | src/at/searles/graphdrawing/Leveling.java:45-118 | fails with IllegalArgument on a null label, otherwise with NoSuchElement exactly when the map is empty. On success: the nodes, the restored edges, the final levels (which pass checkGraphIntegrity), one vertex per node with its level and width and all out-edges drawn, and the placement |

## Left out

- `Vertex.sortInOut` (Leveling.java:84-86, 494-522): the comparator-based reordering of the `in` and `out` lists is not modelled. The lists keep their creation order. Placement and the level assignment do not depend on that order; only the choice of attachment point per edge does.
- JavaFX drawing (`draw`, `drawEdges`, `createCurve`, `Vertex.draw`; Leveling.java:137-142, 544-671): rendering is output only. The anchor arithmetic of `Vertex.src`/`dst` is kept as `Placement.Anchor`.
- Vertex width (Leveling.java:674-676): the width is parsed from the label text as a number. Here it is a caller-supplied function `width: V -> real`. String-to-double parsing and its NumberFormatException are not modelled.
- Doubles are modelled as exact reals: there is no rounding.
- The `System.out.println` calls (Leveling.java:64, 127) and `toString` are console output only.
- A null successor collection (a map value that is itself null): initNodes and reinitNodes iterate over it (Leveling.java:167, 190) and so throw NullPointerException. `Ingestion.Entry.succs` is a sequence, which cannot be null, so this error path is not modelled; null labels inside a collection are modelled.
- `HashMap`/`HashSet` identity of labels and nodes: labels are compared with Dafny equality. The map's entry order is the input sequence order.
- `TestDrawing.java`: a JavaFX demo, and not part of this model. Its example graphs are not evaluated.
- Levels.AssignMinLevel: the `Integer.MIN_VALUE` start of `maxLevel` is kept as a constant, but 32-bit overflow of levels is not modelled, because levels are bounded by the number of nodes.
- Connectivity.IsConnectedTo: lengths are unbounded integers. The `Integer.MAX_VALUE` sentinel is an `Option`, so a path of length `MAX_VALUE - 1` is not treated as "no path".
- Normalization.Normalize: the Java recursion re-normalises descendants shared by several paths. The model does the same traversal, but cost and stack depth are not modelled.
