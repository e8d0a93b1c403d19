# raft-fuzzing core, modelled in Dafny

This project models the sequential, data-structure-centred core of a fuzzer that explores
the schedules of an etcd-raft cluster and measures coverage against a TLA+ model checked by
TLC. The fuzzer and the analysis scripts around it are modelled as follows.

* **The visit-graph depth analyzer**, in both of its Python copies.
  * `scripts/analyze_graph.py` finds the start states of a recorded state graph: nodes with
    no `Prev` field or an empty one. It then gives nodes a `Depth` through a FIFO worklist,
    mutating the node store in place.
  * `scripts/visualize/analyze_graph.py` runs the same pass. It also records the
    `(cur, next)` edges it enqueues and numbers the nodes of each depth by ascending `Key`
    (`Sibling`).
  * The shared node store and the worklist are in `graph_nodes.dfy`. The two scripts are
    `analyze_graph.dfy` and `layout_analyzer.dfy`.
  * The worklist loop is specified by a fuel-bounded function `Run`, because the script
    does not always terminate. `EmptyPrevCycleNeverFinishes` exhibits a graph on which it
    never empties its queue.
* **`VisitGraph.Update`** (`visit_graph.dfy`): the Go structure that builds those graphs.
  It is a class whose map holds node objects. Each method is proved against a value-level
  view (`UpdateView`), and the view is proved to keep `Prev`/`Next` mirrored, to refuse
  self-loops and to count one visit per trace position.
* **The generic `Queue`/`List` containers and `max`** (`types.dfy`).
* **The trace mutators** (`mutators.dfy`, `combined_mutator.dfy`).
  * Every `rand.Intn` draw is an input: the index set, the pair list or the values that the
    mutator's selection loop holds when it exits. A precondition states what that loop
    guarantees at exit.
  * Lemmas show when such an exit state exists, so when the uncapped loops terminate.
* **The schedulers** (`strategy.dfy`): round-robin and uniform random node choice.
* **The guiders' bookkeeping and the TLC state-string normaliser** (`guiders.dfy`).

Three behaviours of the analyzer scripts are easy to miss, and the model states each one:

* Only a start node with no `Prev` field gets depth 0. A start node whose `Prev` is an empty
  object never gets a depth (`EmptyPrevStartGetsNoDepth`). Such a node comes only from a
  hand-written graph: the Go writer omits an empty `Prev` map (visit_graph.go:76).
* The worklist loop can cycle forever (`EmptyPrevCycleNeverFinishes`).
* The layout pass fails on a node without `Depth` as well as on a `Key` with no node
  (`SiblingPassFailures`).

Go panics and Python `KeyError`s are explicit outcomes: `ok == false`, `None`,
`LookupFailed(key)` or `Failure("Depth")`. Where the Go code fails with a panic, the model
states the state at the point of the panic.

## Model

| member | source | states |
|---|---|---|
| GraphNodes.FindStartStates | scripts/analyze_graph.py:5-9 | a key is a start state iff its node has no `Prev` field or an empty one |
| GraphNodes.ListOf | scripts/analyze_graph.py:12 | `list(start_states)` lists every element of the set exactly once |
| GraphNodes.ScanPrev | scripts/analyze_graph.py:21-23 | the predecessor scan fails at the first predecessor that is not a node; otherwise it yields exactly the candidate depths `pred.Depth + 1` of the predecessors that have a depth |
| GraphNodes.ScanPrevKeepsFailure | scripts/analyze_graph.py:21-23 | once a prefix of the scan has raised KeyError, the whole scan raises that error |
| GraphNodes.Least | scripts/analyze_graph.py:25 | `min` of a non-empty set is an element no larger than any other |
| GraphNodes.MinOf | scripts/analyze_graph.py:25 | the imperative `min(list(depths))` returns that least element |
| GraphNodes.Visit | scripts/analyze_graph.py:15-28 | one dequeue raises KeyError iff the key or (for a node without depth) one of its predecessors is not a node; it skips iff the node already has a depth; an expansion changes only the dequeued node's depth and yields its `Next` keys |
| GraphNodes.VisitNode | scripts/analyze_graph.py:15-28 | the in-place dequeue step on the store agrees with `Visit` |
| GraphNodes.Worklist | scripts/analyze_graph.py:14-32 | the in-place FIFO loop with its edge dictionary ends in exactly the store, edges and status that `Run` gives |
| GraphNodes.VisitAssignsLeastCandidate | scripts/analyze_graph.py:20-28 | a node without `Prev` gets depth 0; a node with `Prev` gets the least `pred.Depth + 1` over depthed predecessors, or no depth when none has one |
| GraphNodes.RunOnlyAddsDepths | scripts/analyze_graph.py:17-28 | the loop keeps every key and every field but `Depth`, and never changes a depth once set |
| GraphNodes.VisitKeepsJustified | scripts/analyze_graph.py:20-28 | one dequeue preserves "every new depth is 0 without `Prev`, else a predecessor's depth + 1" |
| GraphNodes.RunKeepsJustified | scripts/analyze_graph.py:14-32 | the whole loop preserves that justification invariant |
| GraphNodes.RunJustifiesDepths | scripts/analyze_graph.py:20-28 | every depth the loop assigns is 0 for a node without `Prev` and otherwise one more than some predecessor's depth in the final store |
| GraphNodes.RunKeepsDepthsNonNegative | scripts/analyze_graph.py:23-28 | starting from non-negative depths, every depth after the loop is non-negative |
| GraphNodes.EmptyPrevStartGetsNoDepth | scripts/analyze_graph.py:8-26 | a node with an explicitly empty `Prev` map is a start state yet never receives a depth |
| GraphNodes.AddEdgesRecordsPairs | scripts/visualize/analyze_graph.py:31-34 | recording one expansion keeps existing pairs in place, appends each new `(cur, next)` once and keeps the list duplicate-free |
| GraphNodes.AddEdgesRecordsPairsOnly | scripts/visualize/analyze_graph.py:31-33 | a pair is recorded iff it was already there or it is `(cur, n)` for a successor `n` |
| GraphNodes.RunRecordsEdges | scripts/visualize/analyze_graph.py:15-34 | the edge list has no duplicate and keeps its initial pairs; a pair is in it exactly when it was there at the start or is a `Next` entry of a node the loop expanded (dequeued without a depth, whether or not it then got one); every node the loop gives a depth was expanded |
| GraphNodes.RunFinishedDequeuesAll | scripts/analyze_graph.py:14-32 | when the queue empties, every queued key was a node, and every queued node without `Prev` has a depth |
| GraphNodes.RunFinishedEdgesEndAtNodes | scripts/visualize/analyze_graph.py:15-34 | when the queue empties, every newly recorded edge ends at a node |
| GraphNodes.CycleKeepsTurning | scripts/analyze_graph.py:14-32 | on a depthless two-node cycle the queue never empties, whatever the bound |
| GraphNodes.EmptyPrevCycleNeverFinishes | scripts/analyze_graph.py:8-32 | a consistent graph whose only start node has an empty `Prev` and leads to such a cycle makes the script loop forever |
| AnalyzeGraph.Analyze | scripts/analyze_graph.py:4-38 | `StartStates` lists exactly the start states once each, and the store and status are those of the depth pass from them |
| AnalyzeGraph.DepthPassFromStarts | scripts/analyze_graph.py:5-32 | the pass from the start states only adds depths, each justified, and when it finishes every node without `Prev` has a depth |
| LayoutAnalyzer.DecimalString | scripts/visualize/analyze_graph.py:48 | `str(n)` is a minus sign iff `n < 0` followed by digits, and never a field name |
| LayoutAnalyzer.GroupingFailsOnMissingField | scripts/visualize/analyze_graph.py:37-42 | grouping fails iff some node without `Sibling` lacks `Depth` or `Key`, and names that field |
| LayoutAnalyzer.GroupingCollectsPeers | scripts/visualize/analyze_graph.py:36-42 | a successful grouping lists each depth once, exactly the depths of unnumbered nodes, with exactly their keys under each |
| LayoutAnalyzer.GroupByDepth | scripts/visualize/analyze_graph.py:36-42 | the imperative grouping loop agrees with `GroupFrom` |
| LayoutAnalyzer.GroupFailureSticks | scripts/visualize/analyze_graph.py:37-42 | a KeyError on a prefix of the node order is the result of the whole loop |
| LayoutAnalyzer.RankFailureSticks | scripts/visualize/analyze_graph.py:47-48 | a KeyError while numbering a prefix of one group is the result for the whole group |
| LayoutAnalyzer.AssignFailureSticks | scripts/visualize/analyze_graph.py:44-48 | a KeyError while numbering a prefix of the depths is the result of the whole pass |
| LayoutAnalyzer.SortedSetEnumerates | scripts/visualize/analyze_graph.py:45-46 | the sorted list of a set is strictly increasing and holds each element once |
| LayoutAnalyzer.SortKeys | scripts/visualize/analyze_graph.py:45-46 | the imperative sort returns that sorted list |
| LayoutAnalyzer.NumberGroup | scripts/visualize/analyze_graph.py:47-48 | numbering one sorted group in place agrees with `RankFrom` |
| LayoutAnalyzer.NumberDepth | scripts/visualize/analyze_graph.py:45-48 | numbering the group of one more depth in place extends the agreement with `AssignFrom` by that depth |
| LayoutAnalyzer.AssignSiblings | scripts/visualize/analyze_graph.py:44-48 | numbering every group, depth by depth, agrees with `AssignFrom` |
| LayoutAnalyzer.RankFromNumbers | scripts/visualize/analyze_graph.py:47-48 | numbering distinct node names succeeds and sets `Sibling` to each name's position, touching nothing else |
| LayoutAnalyzer.RankFromRanksDepth | scripts/visualize/analyze_graph.py:44-48 | numbering the sorted peers of one depth ranks exactly the unnumbered nodes of that depth |
| LayoutAnalyzer.AssignFromRanks | scripts/visualize/analyze_graph.py:44-48 | numbering all depths ranks exactly the unnumbered nodes at those depths |
| LayoutAnalyzer.SiblingPassRanksPeers | scripts/visualize/analyze_graph.py:36-48 | on a well-keyed store, each unnumbered node's `Sibling` is the position of its `Key` among the keys at its depth (dense 0..k-1, ascending); numbered nodes and all other fields are kept |
| LayoutAnalyzer.GroupingSkipsNumbered | scripts/visualize/analyze_graph.py:37-39 | nodes that already have `Sibling` contribute nothing to the grouping |
| LayoutAnalyzer.SiblingPassSkipsNumbered | scripts/visualize/analyze_graph.py:37-39 | a store whose nodes all have `Sibling` passes through unchanged |
| LayoutAnalyzer.SiblingPassIdempotent | scripts/visualize/analyze_graph.py:36-48 | on a well-keyed store, running the layout pass on its own output changes nothing |
| LayoutAnalyzer.RankFromKeepsKeys | scripts/visualize/analyze_graph.py:47-48 | numbering keeps the node keys, and a lookup failure names a string that is not a node |
| LayoutAnalyzer.AssignFromKeepsKeys | scripts/visualize/analyze_graph.py:44-48 | the same for all depths, and the failing name is never `Depth` or `Key` |
| LayoutAnalyzer.SiblingPassFailures | scripts/visualize/analyze_graph.py:40-48 | the pass fails with `Depth`/`Key` iff an unnumbered node lacks that field, leaving the store as it was; any other failure names no node |
| LayoutAnalyzer.AnalyzeLayout | scripts/visualize/analyze_graph.py:4-55 | start states as in `Analyze`, then depth pass with edges, then layout pass, matching `Layout` |
| VisitGraphs.AddUnlessSelf | visit_graph.go:79-94 | adding a key never inserts the node's own key, adds any other key, and adding a present key changes nothing |
| VisitGraphs.VisitGraphNode.constructor | visit_graph.go:29-35 | a new node has the key and state given, no visits and no links |
| VisitGraphs.VisitGraphNode.AddNext | visit_graph.go:79-86 | `Next` becomes `AddUnlessSelf(Next, next, Key)` and nothing else changes |
| VisitGraphs.VisitGraphNode.AddPrev | visit_graph.go:88-95 | `Prev` becomes `AddUnlessSelf(Prev, prev, Key)` and nothing else changes |
| VisitGraphs.LinkNodes | visit_graph.go:47-49 | counting a visit and linking two nodes keeps the key set |
| VisitGraphs.Link | visit_graph.go:26-49 | one loop iteration adds exactly the two keys to the graph |
| VisitGraphs.VisitGraph.constructor | visit_graph.go:14-18 | a new graph is empty |
| VisitGraphs.VisitGraph.IsEmpty | visit_graph.go:20-22 | true iff the graph has no node |
| VisitGraphs.VisitGraph.AddState | visit_graph.go:28-45 | a node for the state is created only if its key has none |
| VisitGraphs.VisitGraph.LinkStates | visit_graph.go:47-49 | the in-place visit count and links agree with `LinkNodes` |
| VisitGraphs.VisitGraph.LinkPair | visit_graph.go:25-50 | one in-place loop iteration agrees with `Link` |
| VisitGraphs.VisitGraph.CountVisit | visit_graph.go:52 | exactly one node gains one visit |
| VisitGraphs.VisitGraph.Update | visit_graph.go:24-53 | the in-place update agrees with `UpdateView`; on a panic nothing has changed |
| VisitGraphs.LinkKeepsShape | visit_graph.go:47-49 | one link keeps the graph mirrored and free of self-loops |
| VisitGraphs.LinkGrows | visit_graph.go:28-49 | one link keeps every node's state, links and visits, and links two distinct keys both ways |
| VisitGraphs.WalkKeepsShape | visit_graph.go:25-50 | the loop keeps `Prev`/`Next` mirrored and free of self-loops |
| VisitGraphs.WalkGrows | visit_graph.go:25-50 | the loop keeps every existing node's state and links |
| VisitGraphs.WalkAddsTraceKeys | visit_graph.go:25-45 | the loop adds exactly the trace's keys, and none when the trace has fewer than two states |
| VisitGraphs.WalkLinksPairs | visit_graph.go:25-50 | every consecutive pair of distinct keys is linked both ways |
| VisitGraphs.UpdatePanics | visit_graph.go:51-52 | `Update` panics iff the trace is empty or is one state whose key has no node |
| VisitGraphs.UpdateKeepsShape | visit_graph.go:24-53 | after `Update` the keys are the old ones plus the trace's, existing nodes keep state and links, and mirroring and no-self-loops are preserved |
| VisitGraphs.UpdateLinksPairs | visit_graph.go:47-49 | after `Update` every consecutive pair of distinct keys is linked both ways |
| VisitGraphs.LinkCountsOneVisit | visit_graph.go:47 | one iteration adds one visit in total |
| VisitGraphs.WalkCountsVisits | visit_graph.go:25-50 | the loop adds `len(trace) - 1` visits in total |
| VisitGraphs.UpdateCountsVisits | visit_graph.go:47-52 | `Update` raises the total number of visits by exactly `len(trace)` |
| Types.Queue.constructor | types.go:30-34 | a new queue is empty |
| Types.Queue.Push | types.go:36-38 | the element is appended at the back |
| Types.Queue.PushAll | types.go:40-42 | all elements are appended at the back, in order |
| Types.Queue.Pop | types.go:44-53 | `ok` iff the queue was non-empty; then the front is returned and removed (FIFO), else the queue is unchanged |
| Types.Queue.Reset | types.go:59-61 | the queue becomes empty and `Size` is 0 |
| Types.List.constructor | types.go:67-71 | a new list is empty |
| Types.List.Append | types.go:73-75 | the element becomes the new last one and `Size` grows by one |
| Types.List.Get | types.go:81-89 | `ok` iff `index < Size`, and then the element at `index` |
| Types.List.Set | types.go:91-97 | false and no change iff `index >= Size`; otherwise only position `index` is replaced |
| Types.List.Reset | types.go:103-105 | the list becomes empty and `Size` is 0 |
| Types.List.Copy | types.go:115-119 | a new list with the same elements |
| Types.Max | types.go:126-131 | the result is at least both arguments and equals one of them |
| Types.Min | mutator.go:294 | the result is at most both arguments and equals one of them |
| Mutators.PositionsOf | mutator.go:33-38 | exactly the positions of the given type, in ascending order |
| Mutators.IndicesOfType | mutator.go:33-38 | the index-collecting loop returns those positions |
| Mutators.CopyTrace | mutator.go:302-310 | the copy loop returns the accepted choices in order |
| Mutators.DefaultCopyFilter | mutator.go:312-316 | accepts every choice |
| Mutators.TypeCopyFilter | mutator.go:318-322 | accepts a choice iff its type is the given one |
| Mutators.FilteredKeepsAccepted | mutator.go:302-316 | a copy holds exactly the accepted choices, is no longer than the trace, and with the default filter is the trace itself |
| Mutators.TypeCopyCountsPositions | mutator.go:302-322 | a copy by type lists the choices at that type's positions, one per position |
| Mutators.SelectionExists | mutator.go:44-49 | an uncapped selection loop has an exit state iff the count is at most the number of eligible indices |
| Mutators.NoPositions | mutator.go:41-42 | no index is collected iff the trace has no choice of that type |
| Mutators.ChoiceMutate | mutator.go:32-64 | the imperative mutator agrees with `Flipped` |
| Mutators.ChoiceMutatorFlips | mutator.go:40-61 | fails iff there is no `RandomBoolean` choice; else same length, exactly the drawn positions have `BooleanChoice` negated (other fields zeroed), `max(NumFlips, 0)` of them, the rest unchanged |
| Mutators.SkipNodeMutate | mutator.go:80-105 | the imperative mutator agrees with `Skipped` |
| Mutators.SurvivorsKeepOrder | mutator.go:98-103 | dropping positions keeps the other choices in order, each shifted left by the number of dropped positions before it |
| Mutators.SurvivorsLength | mutator.go:98-103 | the trace left after dropping is shorter by exactly the number of dropped positions inside it |
| Mutators.SurvivorAt | mutator.go:98-103 | a kept choice lands at its old index minus the dropped positions before it |
| Mutators.SkipNodeMutatorRemoves | mutator.go:88-104 | fails iff there is no `Node` choice; else removes exactly `max(NumSkips, 0)` `Node` choices and keeps the rest in order |
| Mutators.SwapAtPermutes | mutator.go:148-151 | one swap keeps the length and the multiset of choices |
| Mutators.ApplySwapsPermutes | mutator.go:145-153 | the swap loop yields a permutation of the same length |
| Mutators.ApplySwapsUntouched | mutator.go:145-153 | a position named by no pair keeps its choice |
| Mutators.ApplySwapsKeepTypes | mutator.go:145-153 | when every pair joins two positions of one type, every position keeps its type |
| Mutators.SwapNodeMutate | mutator.go:121-155 | the imperative mutator agrees with `Swapped` over `Node` positions |
| Mutators.SwapIntegerChoiceMutate | mutator.go:169-198 | the imperative mutator agrees with `Swapped` over `RandomInteger` positions |
| Mutators.SwapLoop | mutator.go:145-153 | the copy-and-swap loop agrees with `ApplySwaps` |
| Mutators.SwapMutatorsPermute | mutator.go:121-198 | a swap mutator fails iff there is no choice of its type; else it returns a same-length permutation in which every position keeps its type, so other choices stay in place |
| Mutators.NodeSwapsExist | mutator.go:132-143 | `SwapNodeMutator`'s capped selection loop always has an exit state |
| Mutators.IntegerSwapsExist | mutator.go:181-187 | `SwapIntegerChoiceMutator`'s selection loop has an exit state iff `NumSwaps` is at most the number of integer choices |
| Mutators.PointPositionsSize | mutator.go:226-233 | drawn offsets name as many distinct trace positions, all `RandomInteger` |
| Mutators.PointPositionsCount | mutator.go:226-233 | distinct offsets into a strictly increasing index list name as many distinct positions |
| Mutators.ScaleDownIntChoiceMutate | mutator.go:214-247 | the imperative mutator agrees with `ScaledDown` |
| Mutators.ScaleDownLoop | mutator.go:230-245 | the loop over the drawn offsets, in any order, agrees with `ScaleDownAt` |
| Mutators.ScaleDownOne | mutator.go:232-243 | one iteration: after handling one more drawn offset, the trace agrees with `ScaleDownAt` over the offsets handled so far |
| Mutators.ScaleDownIntChoiceMutatorLowers | mutator.go:222-245 | fails iff there is no integer choice; else a drawn positive value becomes a value in `[0, old)`, drawn non-positive values and all other choices are unchanged, and no value grows |
| Mutators.ScaleDownSelectionExists | mutator.go:226-229 | the uncapped scale-down selection exits iff `NumPoints` is at most the number of integer choices |
| Mutators.ScaleUpIntChoiceMutate | mutator.go:265-300 | the imperative mutator agrees with `ScaledUp` |
| Mutators.ScaleUpLoop | mutator.go:285-298 | the loop over the drawn offsets, in any order, agrees with `ScaleUpAt` |
| Mutators.ScaleUpOne | mutator.go:287-296 | one iteration: after handling one more drawn offset, the trace agrees with `ScaleUpAt` over the offsets handled so far |
| Mutators.ScaleUpIntChoiceMutatorRaises | mutator.go:273-297 | fails iff there is no integer choice; else `min(NumPoints, #integer choices)` positions become `min(Max, 2*old)`, the rest are unchanged |
| Mutators.ScaleUpSelectionExists | mutator.go:277-284 | the capped scale-up selection always has an exit state |
| CombinedMutators.Mutate | mutator.go:14-16 | a call through the `Mutator` interface, `EmptyMutator` always failing, agrees with `Mutation` |
| CombinedMutators.CombinedMutate | mutator.go:328-338 | the imperative combined mutator agrees with `Composed` |
| CombinedMutators.ComposedSplits | mutator.go:330-336 | the combined mutator over `a + b` is `a` followed, on success, by `b` (left-to-right composition) |
| CombinedMutators.CombinedFailsIffStageFails | mutator.go:330-337 | the combined mutator fails iff some component fails on the trace it receives |
| CombinedMutators.EmptyStageFails | mutator.go:330-334 | an `EmptyMutator` anywhere makes the combination fail |
| Strategies.GoRem | strategy.go:61-63 | Go's `%` is bounded by the divisor and has the dividend's sign |
| Strategies.GoRemStep | strategy.go:63 | advancing an id below `n` wraps to 0 only past the last id |
| Strategies.RandomPick | strategy.go:26-29 | the random pick succeeds iff `available` is non-empty and returns one of its elements |
| Strategies.AvailableSet | strategy.go:56-59 | the lookup map holds exactly the available ids |
| Strategies.RoundRobinStrategy.constructor | strategy.go:47-53 | starts at node 0 with the given `NumNodes` |
| Strategies.RoundRobinStrategy.GetNextNode | strategy.go:55-64 | returns the current node, which is available, and advances it modulo `NumNodes`, keeping it in `[0, NumNodes)`; with `NumNodes == 0` it panics and nothing changes |
| Strategies.Turns | strategy.go:60-63 | `k` consecutive turns are `k` ids below `NumNodes` |
| Strategies.TurnsAdvance | strategy.go:60-63 | within one round the `i`-th turn is `cur + i`, wrapped once |
| Strategies.RoundRobinIsFair | strategy.go:60-63 | `NumNodes` consecutive turns give every node exactly one turn |
| Guiders.ReplaceAllSelf | guider.go:156 | replacing a pattern by itself changes nothing |
| Guiders.ReplaceAllKeepsOut | guider.go:152-156 | a replacement adds no character that the input and the replacement text lack |
| Guiders.ReplaceAllRemoves | guider.go:152 | replacing a character by text without it removes every occurrence |
| Guiders.ReplaceAllUnmatched | guider.go:153-156 | text without the pattern's first character is left as it is |
| Guiders.Normalize | guider.go:152-156 | the normalised `Repr` holds no newline |
| Guiders.LastReplacementIsIdentity | guider.go:156 | the `>`→`>` replacement is the identity |
| Guiders.ConjunctionCanSurvive | guider.go:153 | one pass can join characters into a new `/\` that stays in the output |
| Guiders.ParseTLCStateTrace | guider.go:149-163 | same length, each `Key` kept at its index, no newline in any `Repr` |
| Guiders.KeysBounded | guider.go:100-108 | a list of states has at most as many distinct keys as states |
| Guiders.TLCStateGuider.constructor | guider.go:52-62 | all three sets start empty |
| Guiders.TLCStateGuider.Reset | guider.go:65-71 | all three sets are emptied |
| Guiders.TLCStateGuider.AddStates | guider.go:100-108 | the state set gains the answer's keys and the count is its growth, a key repeated in one answer counting once |
| Guiders.TLCStateGuider.Check | guider.go:83-122 | the trace set gains the trace hash (at most one entry); on a TLC error it panics with states unchanged; otherwise the new-state count is the growth of the state set (at most the answer's length) and the state-trace set gains at most one entry |
| Guiders.TraceCoverageGuider.constructor | guider.go:172-177 | empty trace set and a fresh, empty embedded guider |
| Guiders.TraceCoverageGuider.Check | guider.go:179-194 | after the embedded `Check` (trace hash recorded; on success the state set gains the answer's keys and the state-trace set its hash; on the panic both are unchanged), reports 1 iff the event-trace key is new and adds it |
| Guiders.TraceCoverageGuider.Reset | guider.go:204-209 | empties its own set and the embedded guider's |

## Left out

- I/O: the `__main__` blocks of both scripts (argv, JSON read and write), `VisitGraph.record`, `TLCStateGuider.recordTrace`, the HTTP call to the TLC server, and the constructors' directory handling.
- Hashing: the SHA-256 of the JSON encodings in the guiders' `Check` (and `newEventTrace(...).Hash()`) is an input string. The TLC server's answer is an input `Option<seq<State>>`, where `None` is a connection error.
- The `float64` ratios returned by both `Check` methods and the `Coverage` accessors are left out: they are floating point or plain size reads.
- The `sync.Mutex` locking is left out (concurrency); every operation is modelled as atomic.
- `LineCoverageGuider` depends on the gocov library and is left out.
- `SwapCrashNodeMutator` and `SwapMaxMessagesMutator` are left out: they use `StopNode`, `MaxMessages` and `sample`, which are not part of this model.
- `GetRandomBoolean` and `GetRandomInteger` are left out: they only forward to the random source.
- All random draws (`rand.Intn`, the seeds) are parameters.
- Go map iteration order is a parameter.
  - The swap mutators receive the drawn pairs as a sequence in iteration order.
  - The scale mutators iterate their offset set in an arbitrary order.
- Python's order for `list(set)`, and document order for `graph["Nodes"]`, are left open or passed in (`Graph.order`).
- Pointers to `SchedulingChoice` are values: `Copy` is a field-wise copy, and no mutator writes through a shared pointer. A `List` of choices passed to a mutator is represented by its contents.
- GraphNodes.Worklist: the loop is bounded by `fuel` and reports `OutOfFuel` where the script would keep looping. AnalyzeGraph.Analyze and LayoutAnalyzer.AnalyzeLayout inherit this bound.
- GraphNodes.Node: the "Key" field is an integer, as the Go tracer writes `int64` keys. The scripts would accept any JSON value there; a string key, with its own `str` and the lexicographic order `sorted` gives strings, is not modelled.
- LayoutAnalyzer.SiblingPassRanksPeers: proved for well-keyed stores only, where each unnumbered node sits under `str` of its `Key` and has a depth. On other stores the failure lemmas (`SiblingPassFailures`) describe the outcome.
- LayoutAnalyzer.SiblingPassIdempotent: proved for well-keyed stores only. Off them the pass is not idempotent: two nodes with the same `Key` at different depths let a second pass number a node by the other one's group.
- Types.List.Get requires a non-negative index, because Go panics on a negative slice index. Types.List.Set has the same requirement.
- Types.List.Copy gives a list with its own contents. The Go copy shares the backing array, so a later `Set` on one list shows in the other; that aliasing is not modelled.
- Types.Queue.Size, Types.List.Size and Types.List.Iter are reads of the backing sequence with no contract of their own. The contracts of Push, Append, Reset and Pop state their effect on them. `AsList` and `MarshalJSON` are left out.
- Strategies.RoundRobinStrategy.GetNextNode requires the current node to be available. The search loop tests membership only in its init statement, so otherwise it never exits.
- Mutators.ScaleUpIntChoiceMutatorRaises uses unbounded integers: the `int` overflow of `2 * old` is not modelled. The same holds for `Visits`, the `int64` keys and the `uint64` node ids, whose width is not modelled either.
- Mutators.ScaleDownIntChoiceMutate and Mutators.ScaleUpIntChoiceMutate omit the `continue` on a failed `Get`: the drawn index is always in range, so that branch is never taken.
- Guiders.ReplaceAll models `strings.ReplaceAll` for non-empty patterns only (the only ones used). It works on characters, which agrees with Go's byte-wise matching for these ASCII patterns.
- The mutators ignore the event trace argument, as the Go code does.
