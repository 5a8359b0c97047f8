# Sutra engine core: a Dafny model

This project models the parts of the Sutra workflow engine whose correctness is hardest to see from one function
body, and proves what they promise. Everything is stated for all inputs, all graphs, all runs or all nesting depths.

* **Diagram layout** (`Ranking`, `Ordering`, `Placement`). The layout of one scope builds a ranking graph from its
  sequence flows, ranks it by a Kahn-style worklist that breaks cycles by seeding, orders each rank by barycenter in
  one sweep, and places the boxes. On an acyclic scope ranks are the lengths of longest paths, no seed is ever used,
  and a second sweep changes nothing. On every scope, cyclic ones included, each node is processed exactly once and
  first in, first out, ranks and orders are determined, ranks stay in range, and no two boxes overlap.
* **Capacity pools** (`CapacityPools`, `CapacityStore`, `CapacityProtocol`). Slots shared by two directions with mutual
  reserves. The reserves hold in every state of every interleaving, and a session that has ended stays quiet although
  marking it and releasing its slots happen under different locks.
* **Deferred acknowledgements** (`AckRegistry`, `AckProtocol`). A bounded queue of deliveries waiting for a terminal
  event. In every run, callbacks that call back into the registry included, each accepted registration has exactly one
  fate, fates are final and have their proper cause, and registrations are conserved.
* **Timers** (`Floats`, `Duration`, `TimerCycle`, `TimerText`). The duration parser accepts exactly a written grammar
  and gives each text the weighted sum of its components, in 64-bit floats; which durations survive being written and
  read again is settled exactly; the catch-up loop of a repeating timer moves to the first slot past the fire, skipping
  none, and keeps its budget over whole chains of fires; a definition survives being persisted and read back.
* **Load gate and process model** (`ProcessModel`, `Loader`, `LoadGate`, `LoadMeaning`, `Runners`, `StartSelection`).
  The recursive assembler accepts exactly the documents that load in the sense of a declarative reading of their
  elements, each as the process read, and refuses for a named cause. Its checks guarantee facts at every nesting depth.
  The test for synchronous execution passes exactly the gated processes in which nothing parks the token as the engine
  runs it, and is compared with what the runners of nested scopes and called processes execute. Start events are
  selected by tier.
* **Bookkeeping across deployments and restarts** (`EndpointClaims`, `AuditSequence`). The first-holder collision
  search agrees with the pairwise rule, the owner key is injective, and audit numbers never repeat or skip across lanes
  and restarts.

`Text` and `Basics` hold shared helpers. Code that updates variables in loops is a method with a loop, proved against
a specification function or predicate; objects that update their fields are classes; expressions and filters are
functions. A parameter the source updates through a mutable reference is an in and an out value, which loses nothing
because such references do not alias.

## What turned out false, and exactly when

* Ending a session with the empty call text marks the whole session as ended but frees only the slots of the empty
  call. `CapacityPools.EndReleases`: nothing the marker covers is left exactly unless the call is the empty text and
  another call's outbound slot is held.
* A cycle whose anchored start is an instant that cannot be written in RFC 3339 (section 5.6) is stored with an empty
  start, and does not read back. `TimerText.BuiltSurvives`, `TimerText.StartLostIff`: exactly those cycles are lost.
  `TimerText.LostStart`: `R/<start>/<interval>` is such a cycle whenever the library reads `<start>` and cannot write it,
  as it is with `0000-01-01T00:00:00+01:00`, an instant of the year before 0000.
* A duration written with a fraction of a second need not read back as itself, because it is read as a float.
  `TimerText.LongDoesNot`: 2^23 seconds and one nanosecond do not. `TimerText.AllReadBackIff`: all shorter durations
  read back exactly up to 2^23 seconds. `TimerText.ReadsBackIff`: beyond that, exactly the durations some float makes.
* The test for synchronous execution does not look into calls, loops, ad-hoc and event-triggered sub-processes, although
  their runners may come to a user task, a receive task or a message catch. `Runners.LoopHidesWait` (a looped
  sub-process around a user task) and `Runners.CallHidesWait` (a call of a process with a user task) are accepted and
  pass the test. `Runners.EligibleIff`: a process that passes holds no wait exactly when none is held in those places;
  `Runners.OpenEligibleNeverWaits`: in particular when the document has no such place.
* Comparing claims with the first holder of an endpoint misses a collision when one deployment id claims it for two
  owners. `EndpointClaims.FirstHolderIsPairwiseIff` gives the exact condition, `EndpointClaims.SplitExample` an input.
* Audit numbers are 32 bits wide. `AuditSequence.NumbersAreConsecutive`: they are 1, 2, 3, ... exactly below 2^32 events,
  and `AuditSequence.LongPassWraps` is a run with that many. (The model wraps; a build with overflow checks panics there.)
* A rebind drops a slot when its new holder already has one for the same pool and call.
  `CapacityPools.RebindConserves`: a pool keeps its count exactly when there is no such slot, and
  `CapacityPools.RebindLosesSlot` is a table with one.

Where comments and code differ the model follows the code: the budget returned with a cycle's next occurrence counts
that occurrence (its comment says what is left after it), and selected start events come in id order (the comment on
selection says document order).

## Model

| member | source | states |
|---|---|---|
| `Ranking.BuildGraph` | rust/crates/bpmn-svg/src/diagram.rs:383-399 | adjacency lists and in-degrees are the two tables of one edge list: box-to-box flows and boundary flows moved to their host, parallel edges kept |
| `Ranking.ListedFlows` | rust/crates/bpmn-svg/src/diagram.rs:383-399 | a box's list names, in flow order, the targets of exactly the flows that lead from it, itself or through a boundary event it hosts |
| `Ranking.CountedFlows` | rust/crates/bpmn-svg/src/diagram.rs:383-399 | a box's in-degree is the number of flows that lead to it |
| `Ranking.PushEdge` | rust/crates/bpmn-svg/src/diagram.rs:388-397 | taking one more edge keeps both tables those of one edge list |
| `Ranking.FirstUnprocessed` | rust/crates/bpmn-svg/src/diagram.rs:735-739 | the seed is the first unprocessed id in document order; none exactly when all are processed |
| `Ranking.InitialQueue` | rust/crates/bpmn-svg/src/diagram.rs:727-731 | the queue starts with exactly the ids without incoming edges, in document order |
| `Ranking.ReadyInOrder` | rust/crates/bpmn-svg/src/diagram.rs:727-731 | each of them stands where the document has it, and none is missing |
| `Ranking.TakeNode` | rust/crates/bpmn-svg/src/diagram.rs:734-741 | the head of the queue, or the seed when it is empty; nothing only when every id is processed |
| `Ranking.Relax` | rust/crates/bpmn-svg/src/diagram.rs:745-755 | every successor rises to the next rank, its open-edge count drops once per parallel edge, and it is put at the end of the queue, in edge order, when none is left and it is unprocessed |
| `Ranking.ReadiedInOrder` | rust/crates/bpmn-svg/src/diagram.rs:745-755 | a successor is queued at exactly the edges that leave it unprocessed and without open edges, in edge order |
| `Ranking.IntoStep` | rust/crates/bpmn-svg/src/diagram.rs:750-751 | processing a node closes exactly its parallel edges into each successor |
| `Ranking.LongestPathRanks` | rust/crates/bpmn-svg/src/diagram.rs:719-758 | terminates on every graph; processes each node exactly once, first in, first out; ranks are those of the processing order and at most the number of nodes; with matching in-degrees a node is taken after all its predecessors, a seed only when every open node still waits for one, and on an acyclic graph ranks rise along edges and are longest-path lengths |
| `Ranking.RunWorklist` | rust/crates/bpmn-svg/src/diagram.rs:724-757 | each step takes the unprocessed node queued first, or seeds when there is none, and the ranks are those that order gives |
| `Ranking.RanksDetermined` | rust/crates/bpmn-svg/src/diagram.rs:719-758 | on every graph, cyclic ones included, the order of processing and every rank are determined by these rules |
| `Ranking.TraceLength` | rust/crates/bpmn-svg/src/diagram.rs:733-744 | as many nodes are processed as there are steps: none twice |
| `Ranking.RankBound` | rust/crates/bpmn-svg/src/diagram.rs:745-749 | no rank exceeds the number of processed nodes |
| `Ranking.RankIsWalk` | rust/crates/bpmn-svg/src/diagram.rs:745-749 | on every graph a rank is the length of some walk reaching the node |
| `Ranking.RankAboveUse` | rust/crates/bpmn-svg/src/diagram.rs:745-749 | a node ranks right of each predecessor as that stood when it was processed |
| `Ranking.StuckMeansCycle` | rust/crates/bpmn-svg/src/diagram.rs:734-740 | nodes that all wait for one another contain a cycle |
| `Ranking.AcyclicNeverSeeds` | rust/crates/bpmn-svg/src/diagram.rs:734-740 | on an acyclic scope the cycle-breaking seed is never used |
| `Ranking.StrictWithoutSeeds` | rust/crates/bpmn-svg/src/diagram.rs:745-755 | without seeds ranks rise strictly along every edge |
| `Ranking.AcyclicRanksAreLongestPaths` | rust/crates/bpmn-svg/src/diagram.rs:717-758 | on an acyclic scope each rank is exactly the length of the longest path reaching the node |
| `Ranking.RankFacts` | rust/crates/bpmn-svg/src/diagram.rs:400-406 | ranks never exceed the number of nodes, so bucketing is in range, and a node past the first column has a predecessor |
| `Ranking.RankScope` | rust/crates/bpmn-svg/src/diagram.rs:383-401 | the whole ranking phase: the graph of the flows, bounded ranks on every scope, longest paths on an acyclic one |
| `Ordering.MaxRank` | rust/crates/bpmn-svg/src/diagram.rs:401-401 | the largest rank |
| `Ordering.Bucket` | rust/crates/bpmn-svg/src/diagram.rs:403-406 | each column lists the ids of its rank in document order |
| `Ordering.OfRankInOrder` | rust/crates/bpmn-svg/src/diagram.rs:403-406 | a column is all ids of its rank, each where the document has it |
| `Ordering.BucketIsColumns` | rust/crates/bpmn-svg/src/diagram.rs:403-406 | every node sits exactly once, in the column of its rank |
| `Ordering.CollectPreds` | rust/crates/bpmn-svg/src/diagram.rs:410-415 | each node's predecessors in document order, one entry per edge |
| `Ordering.PredsOfMembers` | rust/crates/bpmn-svg/src/diagram.rs:410-415 | the predecessor lists invert the adjacency lists |
| `Ordering.PredsOfCounts` | rust/crates/bpmn-svg/src/diagram.rs:410-415 | a predecessor is listed once per edge |
| `Ordering.InitialPositions` | rust/crates/bpmn-svg/src/diagram.rs:416-421 | positions agree with the column index everywhere |
| `Ordering.Renumber` | rust/crates/bpmn-svg/src/diagram.rs:796-798 | the column is renumbered by index and no other position changes |
| `Ordering.Keys` | rust/crates/bpmn-svg/src/diagram.rs:771-789 | the key of a box is the mean position of its neighbours, or its own position without any |
| `Ordering.Barycenter` | rust/crates/bpmn-svg/src/diagram.rs:773-780 | the summed positions of the neighbours that have one, and how many do |
| `Ordering.KeyIsMean` | rust/crates/bpmn-svg/src/diagram.rs:771-789 | the key is the one point from which the positions of the neighbours deviate by nothing in all, or the own position without any |
| `Ordering.SortSorted` | rust/crates/bpmn-svg/src/diagram.rs:790-795 | the sort orders by key and then prior position |
| `Ordering.BarycenterOrder` | rust/crates/bpmn-svg/src/diagram.rs:763-799 | a permutation of the column, ordered by mean predecessor position with ties in prior order, renumbered; other columns untouched |
| `Ordering.Sweep` | rust/crates/bpmn-svg/src/diagram.rs:422-424 | after the sweep every column is a permutation of its rank in barycenter order by the positions of its turn (new ones in earlier columns, prior ones from there on), ties in prior order, and positions agree with indices |
| `Ordering.SweepUnique` | rust/crates/bpmn-svg/src/diagram.rs:422-424 | on every scope, cyclic ones included, that fixes the order of every column |
| `Ordering.LayeredInOrder` | rust/crates/bpmn-svg/src/diagram.rs:422-424 | on a layered scope every column is in barycenter order under the final positions too |
| `Ordering.UniqueOrder` | rust/crates/bpmn-svg/src/diagram.rs:790-795 | keys and prior positions leave one order only |
| `Ordering.SweepSettles` | rust/crates/bpmn-svg/src/diagram.rs:760-799 | on a layered scope running the whole sweep again changes no column and no position |
| `Ordering.AcyclicIsLayered` | rust/crates/bpmn-svg/src/diagram.rs:408-424 | ranks that rise along edges put every predecessor in an earlier column, and give every box past the first column one |
| `Ordering.OrderScope` | rust/crates/bpmn-svg/src/diagram.rs:401-424 | the ordering phase: one sweep from document order |
| `Placement.ColumnWidths` | rust/crates/bpmn-svg/src/diagram.rs:428-432 | a column is exactly as wide as its widest box |
| `Placement.ColumnGaps` | rust/crates/bpmn-svg/src/diagram.rs:435-445 | a gap is exactly the column gap or, where wider, the widest caption of a named flow between the two columns |
| `Placement.CaptionIs` | rust/crates/bpmn-svg/src/diagram.rs:442-442 | a caption's width: a fixed room and so much per character |
| `Placement.ColumnLefts` | rust/crates/bpmn-svg/src/diagram.rs:446-451 | each column starts after the one before it and its gap |
| `Placement.ColumnsApart` | rust/crates/bpmn-svg/src/diagram.rs:446-451 | any later column starts a full gap right of where an earlier one ends |
| `Placement.LowerMedianSplits` | rust/crates/bpmn-svg/src/diagram.rs:473-474 | the chosen height is a predecessor's, the lower middle one: at most (n-1)/2 of the n heights lie strictly below it and more than that at or below it |
| `Placement.PlaceBox` | rust/crates/bpmn-svg/src/diagram.rs:460-480 | a box goes to the height of its lower middle predecessor in earlier columns, or to the top without any, unless that is less than a row gap below the box above: then exactly that gap below |
| `Placement.PlacedSits` | rust/crates/bpmn-svg/src/diagram.rs:456-487 | so every box of a placed column sits at the middle of the column and at that height |
| `Placement.AllPlacedSit` | rust/crates/bpmn-svg/src/diagram.rs:456-487 | so does every box of every column |
| `Placement.PlaceColumn` | rust/crates/bpmn-svg/src/diagram.rs:456-487 | every box of the column sits where the rule puts it and nothing placed before moves |
| `Placement.Place` | rust/crates/bpmn-svg/src/diagram.rs:456-487 | all columns are placed, each by the final heights of earlier ones |
| `Placement.ColumnIsClear` | rust/crates/bpmn-svg/src/diagram.rs:476-481 | boxes down a column keep their order, at least a row gap apart |
| `Placement.NoOverlap` | rust/crates/bpmn-svg/src/diagram.rs:426-487 | two boxes of one column are clear vertically, of two columns clear horizontally by the column gap |
| `Placement.ChainStaysLevel` | rust/crates/bpmn-svg/src/diagram.rs:462-480 | a box with one predecessor stays level with it exactly when the box above leaves room |
| `Placement.LayColumns` | rust/crates/bpmn-svg/src/diagram.rs:426-451 | widths and gaps are exactly those of the widest boxes and captions, and columns stand side by side from zero |
| `Placement.PlaceScope` | rust/crates/bpmn-svg/src/diagram.rs:426-487 | for every scope every box sits where its predecessors and the box above put it, and no two overlap |
| `Placement.LayoutScope` | rust/crates/bpmn-svg/src/diagram.rs:383-487 | ranking, ordering and placement together: each box where its predecessors put it and disjoint boxes on every scope, longest-path columns and settled order on acyclic ones |
| `CapacityPools.ValidateIff` | rust/crates/sutra-channels/src/capacity.rs:141-171 | a declaration passes exactly with a name of lower-case letters, digits and dashes, a slot, and reserves that fit |
| `CapacityPools.AdmitsIffRoom` | rust/crates/sutra-channels/src/capacity.rs:180-191 | a direction is admitted exactly when one more slot leaves the pool within its size and the other direction its unused reserve, whatever the declaration |
| `CapacityPools.AdmitsIffReservesStay` | rust/crates/sutra-channels/src/capacity.rs:180-191 | while the reserves are kept, exactly the slots that leave them kept are admitted |
| `CapacityPools.ReserveIsAvailable` | rust/crates/sutra-channels/src/capacity.rs:180-191 | while the reserves are kept a valid pool is not oversubscribed and a direction below its own reserve is admitted |
| `CapacityPools.InsertKeepsReserves` | rust/crates/sutra-channels/src/capacity.rs:182-191 | an admitted slot keeps every pool's reserves |
| `CapacityPools.InsertNeverOversubscribes` | rust/crates/sutra-channels/src/capacity.rs:182-191 | an admitted slot oversubscribes no pool, valid or not |
| `CapacityPools.ReleaseKeepsReserves` | rust/crates/sutra-channels/src/capacity.rs:395-412 | releasing keeps reserves and sizes |
| `CapacityPools.ReleaseFrees` | rust/crates/sutra-channels/src/capacity.rs:395-412 | exactly the holder's slots selected by call or direction go, every other slot stays as it was |
| `CapacityPools.ReboundUse` | rust/crates/sutra-channels/src/capacity.rs:451-464 | a rebind never adds to a direction's use of any pool |
| `CapacityPools.RebindConserves` | rust/crates/sutra-channels/src/capacity.rs:451-464 | a rebind keeps a pool's number of slots exactly when no moved slot finds its place taken |
| `CapacityPools.RebindLosesSlot` | rust/crates/sutra-channels/src/capacity.rs:451-464 | a table of two slots of which a rebind leaves one |
| `CapacityPools.EndReleases` | rust/crates/sutra-channels/src/capacity.rs:484-511 | ending a session leaves no outbound slot its marker covers, exactly unless the empty call is named while another call is held |
| `CapacityPools.EndFrees` | rust/crates/sutra-channels/src/capacity.rs:484-511 | ending a whole session frees all its slots, ending a call those of the call, in both directions, and no other slot |
| `CapacityPools.SessionEndedIff` | rust/crates/sutra-channels/src/capacity.rs:353-361 | a call is over exactly when its own end or that of its whole session is remembered |
| `CapacityPools.EmptyCallLeavesSlots` | rust/crates/sutra-channels/src/capacity.rs:495-510 | a session ended through the empty call may still hold an outbound slot |
| `CapacityPools.RememberKeepsBounds` | rust/crates/sutra-channels/src/capacity.rs:470-480 | the memory stays within its bound and duplicate-free, holds the new key, and forgets at most its oldest, only when full |
| `CapacityStore.UsageOf` | rust/crates/sutra-channels/src/capacity.rs:367-379 | the number of slots held in each direction of the pool |
| `CapacityStore.ReleaseWhere` | rust/crates/sutra-channels/src/capacity.rs:395-412 | exactly the named slots go, and their directions are reported |
| `CapacityStore.RebindAll` | rust/crates/sutra-channels/src/capacity.rs:451-464 | every slot of the old holder is re-keyed, one the new holder already has wins |
| `CapacityStore.TwoDirections` | rust/crates/sutra-channels/src/capacity.rs:466-468 | the number reported is the released slots of both directions |
| `CapacityStore.TakeKeepsPools` | rust/crates/sutra-channels/src/capacity.rs:440-448 | an admitted acquisition keeps all pools within size, and within reserves where valid |
| `CapacityStore.InMemoryCapacityPools.constructor` | rust/crates/sutra-channels/src/capacity.rs:344-351 | the empty store is valid |
| `CapacityStore.InMemoryCapacityPools.Acquire` | rust/crates/sutra-channels/src/capacity.rs:421-449 | each answer exactly under its condition, in the source's order; of a pool declared validly a new slot is refused exactly when taking it would break a reserve; a slot is added only when acquired; pools stay kept |
| `CapacityStore.InMemoryCapacityPools.Rebind` | rust/crates/sutra-channels/src/capacity.rs:451-464 | the slots are rebound and pools stay kept |
| `CapacityStore.InMemoryCapacityPools.ReleaseCalls` | rust/crates/sutra-channels/src/capacity.rs:517-526 | exactly the selected slots of the holder are released and reported |
| `CapacityStore.InMemoryCapacityPools.ReleaseEnded` | rust/crates/sutra-channels/src/capacity.rs:470-482 | the instance is remembered, all its slots released and counted |
| `CapacityStore.InMemoryCapacityPools.EndSession` | rust/crates/sutra-channels/src/capacity.rs:484-511 | the session or call is remembered, its slots released and reported, and nothing it covers is held outbound unless the empty call was named |
| `CapacityStore.InMemoryCapacityPools.ReleaseCallIfEnded` | rust/crates/sutra-channels/src/capacity.rs:528-545 | a no-op while the instance is not remembered as finished; otherwise the call's slots go and are counted |
| `CapacityProtocol.InvStep` | rust/crates/sutra-channels/src/capacity.rs:421-511 | every locked section keeps the lock discipline, the pools and the bounded memory |
| `CapacityProtocol.ReservesHoldInEveryRun` | rust/crates/sutra-channels/src/capacity.rs:421-511 | in every state of every interleaving no pool is oversubscribed and valid pools keep their reserves |
| `CapacityProtocol.ReserveAlwaysAvailable` | rust/crates/sutra-channels/src/capacity.rs:180-191 | at any point of any run a direction below its own reserve would be admitted |
| `CapacityProtocol.UninterruptedAcquire` | rust/crates/sutra-channels/src/capacity.rs:421-449 | three uninterrupted steps leave what `acquire` promises: the slot taken exactly when the key is free and the direction admitted |
| `CapacityProtocol.EndSettles` | rust/crates/sutra-channels/src/capacity.rs:484-511 | when `end_session` releases, no acquisition that missed the marker is still under way |
| `CapacityProtocol.SettledStep` | rust/crates/sutra-channels/src/capacity.rs:432-436 | no step takes an outbound slot of an ended session while its marker is remembered, barring a rebind onto the holder |
| `CapacityProtocol.EndedSessionStaysQuiet` | rust/crates/sutra-channels/src/capacity.rs:421-511 | in every interleaving, once `end_session` has returned nothing it ended is held or re-taken while its marker is remembered, barring such a rebind |
| `CapacityProtocol.AnEndedSession` | rust/crates/sutra-channels/src/capacity.rs:484-511 | a run in which that guarantee applies exists for every session |
| `CapacityProtocol.ForgottenOnlyWhenFull` | rust/crates/sutra-channels/src/capacity.rs:499-504 | a marker is forgotten only as the oldest of a full memory, by marking another session |
| `CapacityProtocol.ForgottenAfterMany` | rust/crates/sutra-channels/src/capacity.rs:499-504 | in every run, between newly marking a session and forgetting it at least 4096 other sessions are marked |
| `AckRegistry.SweepTakesPrefix` | rust/crates/sutra-channels/src/ack.rs:153-167 | the entries whose deadline has passed, and no others, are taken out, and they are a prefix of the queue |
| `AckRegistry.Split` | rust/crates/sutra-channels/src/ack.rs:158-166 | popping front to back separates timed-out from kept entries, in order |
| `AckRegistry.DeferredAckRegistry.constructor` | rust/crates/sutra-channels/src/ack.rs:61-67 | an empty registry; a zero capacity is one |
| `AckRegistry.DeferredAckRegistry.Find` | rust/crates/sutra-channels/src/ack.rs:200-203 | the instance's entry, or none exactly when it has none |
| `AckRegistry.DeferredAckRegistry.Register` | rust/crates/sutra-channels/src/ack.rs:73-120 | a duplicate changes nothing; at capacity the oldest entry is evicted; the new one goes last |
| `AckRegistry.DeferredAckRegistry.Remove` | rust/crates/sutra-channels/src/ack.rs:200-204 | exactly the instance's entry is taken out, the others keep their order |
| `AckRegistry.DeferredAckRegistry.SweepTimeouts` | rust/crates/sutra-channels/src/ack.rs:153-181 | the queue splits into the timed-out prefix, to be nacked, and the rest |
| `AckProtocol.InvStep` | rust/crates/sutra-channels/src/ack.rs:73-204 | every operation and every callback keeps distinct instances within capacity, the queue equal to the waiting registrations, and each fired callback fired once |
| `AckProtocol.RegisterIsStep` | rust/crates/sutra-channels/src/ack.rs:73-120 | what registering does under the lock is a step of the run model, the new registration waiting and the evicted one's nack due |
| `AckProtocol.RemoveIsStep` | rust/crates/sutra-channels/src/ack.rs:122-204 | what removing does under the lock is a step of the run model, with the ack, the nack or silence left to its caller |
| `AckProtocol.SweepIsStep` | rust/crates/sutra-channels/src/ack.rs:153-181 | what a sweep does under the lock is a step of the run model, with a nack due for every entry taken out |
| `AckProtocol.EveryRunKeepsInv` | rust/crates/sutra-channels/src/ack.rs:73-204 | so it is in every state of every run |
| `AckProtocol.FateAdvances` | rust/crates/sutra-channels/src/ack.rs:73-204 | a fate changes only from waiting by its proper cause, or from due to fired |
| `AckProtocol.FatesAreFinal` | rust/crates/sutra-channels/src/ack.rs:122-146 | a fired or withdrawn registration never changes again and a due callback only fires |
| `AckProtocol.FatesHaveCauses` | rust/crates/sutra-channels/src/ack.rs:73-204 | an ack only after the instance completed, a nack only after failure, timeout or eviction as the oldest, silence only after withdrawal |
| `AckProtocol.Conservation` | rust/crates/sutra-channels/src/ack.rs:73-204 | accepted registrations are pending, due, fired or withdrawn, and these add up |
| `Floats.RoundNearest` | rust/crates/sutra-bpmn/src/duration.rs:45-47 | no 64-bit float is nearer to a number than the one it is rounded to |
| `Floats.RoundIsFloat` | rust/crates/sutra-bpmn/src/duration.rs:45-73 | what rounding gives is a 64-bit float |
| `Floats.RoundExact` | rust/crates/sutra-bpmn/src/duration.rs:45-73 | a 64-bit float is rounded to itself |
| `Floats.FineSignificand` | rust/crates/sutra-bpmn/src/duration.rs:45-73 | below 2^53 a number is scaled up to 53 bits, or as far as the format goes, and takes the nearest whole significand, the even one of two |
| `Floats.CoarseSignificand` | rust/crates/sutra-bpmn/src/duration.rs:45-73 | from there on it is scaled down to 53 bits and rounded so, and is infinite exactly past the last exponent |
| `Floats.FloatIff` | rust/crates/sutra-bpmn/src/duration.rs:45-73 | the 64-bit floats are exactly the whole significands below 2^53 times a power of two within the exponent range |
| `Duration.TakeStep` | rust/crates/sutra-bpmn/src/duration.rs:29-73 | after each accepted character the state is that of having read the written components so far, with their weighted sum, whatever the arithmetic |
| `Duration.NumberIff` | rust/crates/sutra-bpmn/src/duration.rs:29-48 | a number is digits with at most one point among them, and at least one digit |
| `Duration.ParseIso8601Duration` | rust/crates/sutra-bpmn/src/duration.rs:13-86 | the loop computes the machine's verdict in 64-bit floats, each error under its condition, sums that are not finite or too long for a duration included |
| `Duration.ParseWritten` | rust/crates/sutra-bpmn/src/duration.rs:13-86 | a text that writes components denotes their weighted sum in floats, to the nearest nanosecond |
| `Duration.ParseAccepts` | rust/crates/sutra-bpmn/src/duration.rs:13-86 | only such texts are accepted, or refused for their length |
| `Duration.RefusedFor` | rust/crates/sutra-bpmn/src/duration.rs:13-86 | a text that starts with P is refused for a character after a readable beginning, for a number left at its end, for having no component, or for its length, each error for its own cause |
| `Duration.LengthIs` | rust/crates/sutra-bpmn/src/duration.rs:75-86 | the length is the nearest whole number of nanoseconds, the even one of two, exactly for a finite sum below 2^64 seconds |
| `Duration.WholeTextsAreExact` | rust/crates/sutra-bpmn/src/duration.rs:45-86 | a text of whole numbers worth at most 2^53 seconds denotes exactly that many |
| `TimerText.UnitsAgree` | rust/crates/sutra-bpmn/src/duration.rs:50-58 | the same length in weeks, days, hours, minutes or seconds, in either case of each letter, reads as the same duration, up to 2^53 seconds |
| `Duration.F64IsExactWhenSmall` | rust/crates/sutra-bpmn/src/duration.rs:45-73 | reading, multiplying by a unit and adding do not round where the result is whole and at most 2^53 |
| `TimerCycle.SlotsOnIsLeast` | rust/crates/sutra-bpmn/src/timer.rs:269-277 | the number of slots moved on is the least one that passes the fire's instant |
| `TimerCycle.AdvanceCycle` | rust/crates/sutra-bpmn/src/timer.rs:284-315 | the next due instant is the first slot after both the fired one and now, with one repeat spent per slot passed; done exactly when the budget ends before it; no interval gives no next one |
| `TimerCycle.AdvancesIff` | rust/crates/sutra-bpmn/src/timer.rs:278-315 | there is exactly one such answer for every input, and the closed form is it |
| `TimerCycle.OnGrid` | rust/crates/sutra-bpmn/src/timer.rs:271-277 | over every chain of fires due instants lie on the grid, and slots passed plus budget left is the budget given |
| `TimerCycle.DueInstantsRise` | rust/crates/sutra-bpmn/src/timer.rs:271-277 | due instants rise strictly, each past the instant its predecessor fired |
| `TimerCycle.NoSlotSkipped` | rust/crates/sutra-bpmn/src/timer.rs:278-315 | over every chain no slot lies after a fire and before the next due instant |
| `TimerCycle.AtMostN` | rust/crates/sutra-bpmn/src/timer.rs:271-277 | an `R<n>` cycle fires at most n times and never after its n-th slot |
| `TimerCycle.ExactlyNWhenOnTime` | rust/crates/sutra-bpmn/src/timer.rs:271-277 | with no missed slot it fires exactly n times |
| `TimerText.UnsupportedIffCalendar` | rust/crates/sutra-bpmn/src/timer.rs:317-345 | a duration is an unsupported form exactly when it starts with P and has a year or month before the first T |
| `TimerText.CalendarBranchUnreachable` | rust/crates/sutra-bpmn/src/duration.rs:53-58 | through the timer parser the scanner's own calendar complaint never appears |
| `TimerText.ReadsBackIff` | rust/crates/sutra-bpmn/src/timer.rs:773-783 | a rendered duration reads back as itself exactly when some float number of seconds becomes it |
| `TimerText.RenderedShape` | rust/crates/sutra-bpmn/src/timer.rs:773-783 | a fraction is written exactly where there is one, in at most nine digits and without trailing zeros |
| `TimerText.ShortReadsBack` | rust/crates/sutra-bpmn/src/timer.rs:773-783 | every duration below 2^23 seconds reads back to the nanosecond |
| `TimerText.WholeReadsBack` | rust/crates/sutra-bpmn/src/timer.rs:773-783 | every whole number of seconds up to 2^53 reads back |
| `TimerText.LongDoesNot` | rust/crates/sutra-bpmn/src/timer.rs:773-783 | 2^23 seconds and a nanosecond do not read back |
| `TimerText.AllReadBackIff` | rust/crates/sutra-bpmn/src/timer.rs:773-783 | all durations below a bound read back exactly when the bound is at most 2^23 seconds |
| `TimerText.PartsHaveNoSlash` | rust/crates/sutra-bpmn/src/timer.rs:400-401 | splitting at slashes leaves none |
| `TimerText.CycleIff` | rust/crates/sutra-bpmn/src/timer.rs:385-447 | accepted as a cycle are exactly R or r, no count or a numeral of 1 to 2^32-1, an optional start naming an instant, and a positive interval, between slashes and with space around; each gives the cycle so written |
| `TimerText.ParsedIsWellformed` | rust/crates/sutra-bpmn/src/timer.rs:385-447 | a parsed cycle has a budget of 1 to 2^32-1 or none, a trimmed positive interval without slash, and a written start |
| `TimerText.CountReadsBack` | rust/crates/sutra-bpmn/src/timer.rs:177-180 | a repeat count written in decimal reads back |
| `TimerText.KindIff` | rust/crates/sutra-bpmn/src/timer.rs:196-212 | a stored row is read as a duration, a date or a cycle exactly for these three kinds |
| `TimerText.CycleRoundTrip` | rust/crates/sutra-bpmn/src/timer.rs:173-193 | the text of a well-formed cycle reads back as the cycle, and is refused when its start was lost |
| `TimerText.ParsedCycleSurvives` | rust/crates/sutra-bpmn/src/timer.rs:170-212 | a parsed cycle survives persistence exactly when its start was not lost |
| `TimerText.BuiltSurvives` | rust/crates/sutra-bpmn/src/timer.rs:153-212 | every literal definition the parsers build survives persistence, exactly but for those cycles |
| `TimerText.StartLostIff` | rust/crates/sutra-bpmn/src/timer.rs:364-377 | the start is lost exactly for an anchor the library cannot write |
| `TimerText.LostStart` | rust/crates/sutra-bpmn/src/timer.rs:364-377 | a cycle anchored at such a start is accepted with an empty start and does not survive |
| `TimerText.RenderedInterval` | rust/crates/sutra-bpmn/src/timer.rs:773-783 | any whole number of seconds, as rendered, is an interval such a cycle can have |
| `TimerText.ResolvedSurvives` | rust/crates/sutra-bpmn/src/timer.rs:689-771 | a resolved expression has the form asked for and survives persistence exactly when its instant could be written |
| `TimerText.ResolvedTextDue` | rust/crates/sutra-bpmn/src/timer.rs:689-755 | a duration resolved to text is accepted exactly when the text reads, and is due that long after it is armed |
| `TimerText.ResolvedSpanDue` | rust/crates/sutra-bpmn/src/timer.rs:689-755 | a resolved time span is accepted exactly when it is not negative, and is due that long after exactly when it reads back |
| `TimerText.ResolvedDateDue` | rust/crates/sutra-bpmn/src/timer.rs:718-759 | a resolved value is accepted exactly when it stands for an instant, and is due at that very instant when it can be written |
| `TimerText.ResolvedCycleIs` | rust/crates/sutra-bpmn/src/timer.rs:759-771 | a resolved cycle is exactly the one its text says |
| `TimerText.CycleFirstDue` | rust/crates/sutra-bpmn/src/timer.rs:228-250 | a cycle has a first due instant exactly when its start was not lost, and an unanchored one is due after it is armed |
| `TimerText.FirstDueIff` | rust/crates/sutra-bpmn/src/timer.rs:228-250 | a duration or unanchored cycle is first due exactly its length after it is armed, a date or anchored cycle at the instant named, an unresolved expression never |
| `TimerText.FiresOnce` | rust/crates/sutra-bpmn/src/timer.rs:214-226 | every chain of fires of a duration or a date has one fire |
| `TimerText.AdvanceSpec` | rust/crates/sutra-bpmn/src/timer.rs:278-315 | the stored interval is read again; an unreadable one is the error, otherwise the first slot past the fire with its budget |
| `TimerText.CycleKeepsBudget` | rust/crates/sutra-bpmn/src/timer.rs:216-250 | from its first due instant and with its total as budget, a parsed `R<n>` cycle fires at most n times and never after its n-th slot |
| `ProcessModel.Find` | rust/crates/sutra-bpmn/src/loader.rs:3517-3520 | a node with the id, exactly when there is one |
| `ProcessModel.Of` | rust/crates/sutra-bpmn/src/model.rs:709-765 | refused exactly when two nodes share an id, otherwise indexed both ways |
| `ProcessModel.SourceIndexLists` | rust/crates/sutra-bpmn/src/model.rs:832-838 | asking for a node's outgoing flows gives exactly the flows leaving it, in declaration order |
| `ProcessModel.LeavingInOrder` | rust/crates/sutra-bpmn/src/model.rs:832-838 | they are all the flows whose source is the node, each where it was declared |
| `ProcessModel.TargetIndexLists` | rust/crates/sutra-bpmn/src/model.rs:840-846 | asking for its incoming flows gives exactly those entering it, in declaration order |
| `ProcessModel.EnteringInOrder` | rust/crates/sutra-bpmn/src/model.rs:840-846 | they are all the flows whose target is the node, each where it was declared |
| `Loader.AssembleProcess` | rust/crates/sutra-bpmn/src/loader.rs:502-849 | the recursive assembler returns the specified process or refusal, the first refusal in the source's order |
| `LoadMeaning.LoadsIff` | rust/crates/sutra-bpmn/src/loader.rs:502-975 | for every container and at every depth: it is accepted as a process exactly when its elements read as the nodes in order, boundary events sit on activities of the container, timeouts are added for exactly the channel calls that declare one, bindings are those of its nodes, ids are distinct and the gate is met |
| `LoadMeaning.RefusedForCause` | rust/crates/sutra-bpmn/src/loader.rs:502-975 | a refusal names something that is wrong: with an element, a boundary event, or the nodes they read as |
| `LoadMeaning.BuildIff` | rust/crates/sutra-bpmn/src/loader.rs:853-975 | an element is built as a node exactly when it reads as that node: kind, id, loop marker, implementation and nested container |
| `Loader.WalkChildren` | rust/crates/sutra-bpmn/src/loader.rs:528-805 | the loop over a container's elements gathers nodes, flows, activities and pending boundary events |
| `LoadMeaning.WalkIff` | rust/crates/sutra-bpmn/src/loader.rs:528-805 | what is gathered is exactly the node of every node element in order, every flow, every boundary event, and as hosts exactly the plain, call, service, receive and user tasks and sub-processes |
| `LoadGate.BuiltIsGated` | rust/crates/sutra-bpmn/src/loader.rs:853-975 | the node built for an element, loop marker and nested scopes included, meets the gate at every depth |
| `Loader.AppendBoundaries` | rust/crates/sutra-bpmn/src/loader.rs:807-815 | boundary events are built after all activities are known |
| `LoadMeaning.BoundariesIff` | rust/crates/sutra-bpmn/src/loader.rs:807-815 | they are built exactly when each sits on one of these hosts, one node per event in order |
| `Loader.SynthesizeTimeoutBoundaries` | rust/crates/sutra-bpmn/src/loader.rs:3432-3470 | one timer boundary per channel call with a timeout, after all other nodes |
| `LoadMeaning.TimeoutsUnique` | rust/crates/sutra-bpmn/src/loader.rs:3432-3470 | one timer boundary for each channel call with a timeout, in node order, is the only list it can be |
| `Loader.ProjectBindings` | rust/crates/sutra-bpmn/src/loader.rs:823-831 | the document's bindings narrowed to the container's nodes |
| `LoadMeaning.BindsIff` | rust/crates/sutra-bpmn/src/loader.rs:823-831 | these are the only bindings that hold exactly what the document gives the ids of the nodes |
| `LoadGate.ProjectedIff` | rust/crates/sutra-bpmn/src/loader.rs:823-831 | a node of the container has exactly the bindings the document gives its id, any other id none |
| `LoadGate.ValidateIff` | rust/crates/sutra-bpmn/src/loader.rs:3480-3709 | the checks pass exactly when every node of the container meets the gate |
| `LoadGate.WaitStateIff` | rust/crates/sutra-bpmn/src/model.rs:592-612 | a node waits exactly if it is a user or receive task, a message or timer catch, a call of a channel, or an embedded or transaction sub-process that is not eligible |
| `LoadGate.ChannelCallIff` | rust/crates/sutra-bpmn/src/model.rs:604-606 | a call of a channel is a service task whose implementation is `channel:` and a name |
| `LoadGate.LookupsIff` | rust/crates/sutra-bpmn/src/loader.rs:3480-3709 | a node has a timer boundary, a routed one, or a waiting host exactly when the container has the node and flow that say so |
| `LoadGate.TwoLeaveIff` | rust/crates/sutra-bpmn/src/loader.rs:3494-3512 | a gateway has two arms exactly when two flows of the container start there |
| `LoadGate.ArmsParkIff` | rust/crates/sutra-bpmn/src/loader.rs:3494-3536 | every arm of an event-based gateway is checked, and checked for reaching a node that parks |
| `LoadGate.RetryIff` | rust/crates/sutra-bpmn/src/loader.rs:3625-3691 | retry policies sit only on service tasks, and on channel calls only without a routed timer boundary |
| `LoadGate.TimeoutIff` | rust/crates/sutra-bpmn/src/loader.rs:3692-3707 | timeouts sit only on channel calls |
| `LoadGate.SynthesizedIff` | rust/crates/sutra-bpmn/src/loader.rs:3432-3470 | a timeout boundary is synthesized for exactly the channel calls that declare one |
| `LoadGate.SynthesisKeepsDistinct` | rust/crates/sutra-bpmn/src/loader.rs:3425-3470 | ids stay distinct after synthesis exactly when they were and no authored id is a synthesized one |
| `LoadGate.NamesNeverClash` | rust/crates/sutra-bpmn/src/loader.rs:3425-3428 | ids without `#` never clash with synthesized ones |
| `LoadGate.TimeoutSuffices` | rust/crates/sutra-bpmn/src/loader.rs:817-821 | a channel call with a timeout has a timer boundary |
| `LoadGate.InlineIff` | rust/crates/sutra-bpmn/src/loader.rs:896-936 | a sub-process is refused exactly when it directly holds a channel call, a timer catch or a retry |
| `LoadGate.BelowIsQuiet` | rust/crates/sutra-bpmn/src/loader.rs:896-936 | below a gated container nothing parks durably |
| `LoadGate.AssembledIsGated` | rust/crates/sutra-bpmn/src/loader.rs:502-975 | in every accepted process, at every depth: distinct ids, a timer boundary on each channel call, retries without routed timers, races of two or more parking arms, timer boundaries on hosts that park |
| `LoadGate.DurableParksOnlyAtTop` | rust/crates/sutra-bpmn/src/loader.rs:853-936 | channel calls, timer catches and retries occur only directly in the top-level process, and none is looped |
| `LoadGate.EligibleMeansNoDurablePark` | rust/crates/sutra-bpmn/src/model.rs:1063-1079 | an accepted process eligible for synchronous execution holds none of them anywhere |
| `Runners.EligibleParksNothing` | rust/crates/sutra-executor/src/executor.rs:1197-1376 | where the eligibility test holds the walk itself parks on no node, races included |
| `Runners.EligibleIffUnparked` | rust/crates/sutra-bpmn/src/model.rs:1063-1079 | a gated process passes the test exactly when the engine parks the token on no node of it, nor of an embedded or transaction sub-process below, and none of them retries or replies and continues |
| `Runners.QuietIff` | rust/crates/sutra-executor/src/executor.rs:3486-4150 | a gated container that passes the test comes to no wait, following calls to any depth, exactly when none is held in what the test does not look into, as the runners of those scopes execute them |
| `Runners.ScopeComesToWait` | rust/crates/sutra-executor/src/executor.rs:3630-3740 | a user task, receive task or message catch directly in a sub-process is a wait of it, exactly but in an ad-hoc one without calls |
| `Runners.AdHocComesToWait` | rust/crates/sutra-executor/src/executor.rs:3742-3790 | an ad-hoc sub-process comes to a wait where a process it calls does |
| `Runners.EligibleIff` | rust/crates/sutra-bpmn/src/model.rs:1063-1079 | an accepted process passes the test exactly when its own walk parks nowhere, and then comes to no wait, following calls to any depth, exactly when none is held in the calls, loops, ad-hoc and event-triggered sub-processes the test does not look into |
| `Runners.OpenEligibleNeverWaits` | rust/crates/sutra-bpmn/src/model.rs:1063-1079 | without calls, looped and event-triggered sub-processes the test means that no wait is held, whatever the other processes are |
| `Runners.LoopHidesWait` | rust/crates/sutra-executor/src/executor.rs:4113-4150 | an accepted process that passes the test and whose loop comes to a user task |
| `Runners.CallHidesWait` | rust/crates/sutra-executor/src/executor.rs:3486-3628 | an accepted process that passes the test and calls one that comes to a user task |
| `StartSelection.SelectsBestTier` | rust/crates/sutra-bpmn/src/model.rs:969-1050 | all eligible start events of the best occupied tier are selected and nothing else |
| `StartSelection.EligibleIff` | rust/crates/sutra-bpmn/src/model.rs:969-1050 | on the fields of the document: which start events a message may start by channel and predicate, and which of them name its type, match it by pattern, or catch all |
| `StartSelection.SelectsInOrder` | rust/crates/sutra-bpmn/src/model.rs:883-892 | they come in id order, each once |
| `StartSelection.AscendingUnique` | rust/crates/sutra-bpmn/src/model.rs:883-892 | membership and id order leave one answer only |
| `StartSelection.DeletionIsInvisible` | rust/crates/sutra-bpmn/src/model.rs:969-1050 | deleting start events of other channels or with a false predicate changes nothing |
| `StartSelection.TiersAreDisjoint` | rust/crates/sutra-bpmn/src/loader.rs:2739-2749 | a start event is in at most one tier exactly when its source has not both a value and a pattern |
| `EndpointClaims.OwnerKeyIff` | rust/crates/sutra-channels/src/endpoint_claims.rs:67-79 | owner keys are equal exactly for one tenant and module, or one unlabelled deployment |
| `EndpointClaims.FindEndpointCollisions` | rust/crates/sutra-channels/src/endpoint_claims.rs:130-164 | the nested loops compute the collisions of every endpoint in key order |
| `EndpointClaims.GroupByEndpoint` | rust/crates/sutra-channels/src/endpoint_claims.rs:131-137 | each endpoint's claims in the order given, the endpoints in ascending order |
| `EndpointClaims.GroupInOrder` | rust/crates/sutra-channels/src/endpoint_claims.rs:131-137 | the claims on an endpoint are all of them, each where it was given |
| `EndpointClaims.BroadcastIff` | rust/crates/sutra-channels/src/endpoint_claims.rs:140-145 | an endpoint is left alone exactly when every claim on it is broadcast |
| `EndpointClaims.ReportGroup` | rust/crates/sutra-channels/src/endpoint_claims.rs:139-161 | the collisions of one endpoint against its first claimant |
| `EndpointClaims.CollisionIs` | rust/crates/sutra-channels/src/endpoint_claims.rs:146-161 | each collision names the first claim on the endpoint as holder and, as claimant, a later claim of another owner that is the first such of its deployment |
| `EndpointClaims.OffendsIff` | rust/crates/sutra-channels/src/endpoint_claims.rs:126-161 | a deployment offends on an endpoint exactly when the endpoint is not all broadcast and one of its claims is so held against the first |
| `EndpointClaims.KeysAscending` | rust/crates/sutra-channels/src/endpoint_claims.rs:131-139 | exactly the claimed endpoints are visited, ordered by transport and then identity, each once |
| `EndpointClaims.ScanReports` | rust/crates/sutra-channels/src/endpoint_claims.rs:146-161 | only claims of another deployment and another owner than the holder's are reported, no deployment twice |
| `EndpointClaims.ReportedOnce` | rust/crates/sutra-channels/src/endpoint_claims.rs:126-161 | each such deployment is reported, and once |
| `EndpointClaims.FirstHolderIsPairwiseIff` | rust/crates/sutra-channels/src/endpoint_claims.rs:126-161 | comparing with the first holder agrees with comparing every pair exactly when the holder's deployment is not split between two owners |
| `EndpointClaims.SplitExample` | rust/crates/sutra-channels/src/endpoint_claims.rs:146-152 | three claims with a colliding pair that the search does not report |
| `EndpointClaims.FoundIffPairwise` | rust/crates/sutra-channels/src/endpoint_claims.rs:126-164 | when a deployment id determines its owner, nothing is found exactly when no endpoint that is not all broadcast has two owners |
| `EndpointClaims.OffendersReportedOnce` | rust/crates/sutra-channels/src/endpoint_claims.rs:126-164 | exactly the offending deployments are reported, each once per endpoint |
| `AuditSequence.AuditListener.constructor` | rust/crates/sutra-channels/src/audit.rs:321-330 | a listener that has counted nothing |
| `AuditSequence.AuditListener.Seed` | rust/crates/sutra-channels/src/audit.rs:345-349 | the count becomes the larger of the two and never regresses |
| `AuditSequence.AuditListener.Emit` | rust/crates/sutra-channels/src/audit.rs:360-390 | one event with the instance's next number |
| `AuditSequence.BeginKeeps` | rust/crates/sutra-channels/src/audit.rs:345-349 | seeding a pass from the snapshot keeps the count of every instance on every lane right |
| `AuditSequence.EmitKeeps` | rust/crates/sutra-channels/src/audit.rs:332-337 | the next number of the instance continues its sequence and leaves all others alone |
| `AuditSequence.FinishKeeps` | rust/crates/sutra-channels/src/audit.rs:351-357 | the count read back when a pass ends is that of all its instance's events |
| `AuditSequence.StepKeepsInv` | rust/crates/sutra-channels/src/audit.rs:339-357 | seeding, emitting, persisting and restarting keep the current lane's count at the events emitted and every other lane's at or below the snapshot |
| `AuditSequence.NumbersAreConsecutive` | rust/crates/sutra-channels/src/bridge.rs:65-69 | over every run of non-overlapping passes, across lanes and restarts, an instance's numbers are 1, 2, 3, ... exactly below 2^32 events |
| `AuditSequence.LongPassWraps` | rust/crates/sutra-channels/src/audit.rs:332-337 | a run with 2^32 events, whose numbers are not |
| `AuditSequence.LostPassRepeats` | rust/crates/sutra-channels/src/bridge.rs:65-69 | after a lane is lost with its passes unpersisted the next number, on any lane, repeats exactly when the lost pass had emitted any |

## Left out

- XML, YAML and JSON reading: containers are trees of classified elements, and what an element's own builder refuses about its attributes is a given refusal.
- Load checks beyond the gate (throw targets, link pairing, streaming flags, data associations, variables): they can only refuse more documents, so what is proved of accepted ones holds of fewer.
- Loader.AssembleProcess: declared variables, names, timer texts and start-event channels are not carried into the model's nodes.
- FEEL, regular expressions and RFC 3339: parameters, with the laws used stated where they are used. Reading a float is its rounding to nearest, as the library promises.
- Duration.ParseIso8601Duration: the panic on 2^64 seconds and more is an error of its own.
- Runners: which flows a token takes is not modelled, only which nodes each runner would park on; a nested runner drops the wait it comes to.
- Ordering.OrderScope: asks for distinct box ids, as XML ids are; the source also orders a document that repeats one.
- Placement.LayoutScope: asks for distinct box ids, as XML ids are; the source also lays out a document that repeats one.
- Box sizes, positions and barycenters are reals where the source has floats.
- Placement: the two adjustment passes after placement, edge routing, captions and all SVG text.
- The persisted capacity store, the `InstanceEnded` answer and a pool's tenant list: only the in-memory store's slots and memories are modelled.
- Logging, diagnostics wording, panic swallowing in callbacks, file writing and the async runtime: plumbing.
- `InstanceBridge`: only the source of the assumption that one instance's passes do not overlap and end by persisting.
- Event delivery: cloud events, authentication and audit sinks would only add easy members.
