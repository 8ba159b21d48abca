# Verified models of the routing engine's stateful cores

The marketplace backend embeds the OSRM routing engine and a FlatBuffers runtime, and hands orders to couriers through a
Redis list. This project models the parts of that code whose correctness rests on state that several operations share, and
proves what those parts are for. Each module follows one component; `dafny verify dfyconfig.toml` checks them all.

* **Multi-level customization** (`Paths`, `QueryHeap`, `CliqueSearch`, `MultiLevel`, `CellCustomizer`). The tables of each
  partition cell are filled bottom-up by a Dijkstra search that uses the tables one level below as clique arcs and skips the
  clique arcs of a node that such an arc reached. The heap keeps its never-cleared position index, the tables are slices
  of three flat vectors, and the main result is that every entry is the lexicographic distance inside its cell. The
  assumptions are those of the partition and the graph: positive edge weights (durations and distances are unrestricted),
  edges stored at both ends, nested cells, disjoint value ranges.
* **Contraction input and output** (`Sorting`, `Permutation`, `ContractorAdaptors`, `ConversionRecords`, `EdgeExport`,
  `ContractedEdgeContainer`, `ContractExcludable`). Mirroring, sorting and in-place compaction of the edge list, listing
  the edges again, and the flag-annotated merge that stores up to eight edge sets at once, with the permutation walked in
  place.
* **Shared data** (`DataWatchdog`). The register, its mutex and condition, the watchdog thread and any number of readers as
  one state machine with small steps: a publisher rewrites a region's key and timestamp in two steps, the factory is
  swapped in two steps, and readers look at it in two steps.
* **FlatBuffers** (`FlatBytes`, `FlatTables`, `FlatVectors`, `Utf8`, `FlatLayout`, `FlatBuilder`, `FlatRuns`,
  `FlatTraces`). The builder is a class with the fields of the original over a byte array that is filled from its end and
  doubled. A ghost ledger holds what has been promised: finished tables with their slots, vtables, and aligned scalars.
  Every call keeps it, and the readers are proved against it. A run of calls leaves a trace of snapshots, and alignment,
  fields and vectors are followed through it.
* **Snapping** (`GeospatialQuery`), **route collapse** (`RouteCollapse`), **Base64 and hints** (`Base64`), **courier
  dispatch** (`CourierDispatch`).

Where the code does less than one might expect, the exact condition is proved:

* A finished table reads back if and only if its vtable size and stored entries stay below 2^15
  (`FlatTables.ReadsExactlyWhenFits`).
* A string reads back if and only if its high surrogates are paired (`Utf8.StringRoundTrip`).
* Collapsing a route twice equals collapsing it once if and only if no empty leg's source part would be counted again
  (`RouteCollapse.CollapseTwice`).
* Snapping keeps every wanted segment within the maximal distance if and only if none of them stands at or behind a place
  of the stream where the cutoff stops the search (`GeospatialQuery.CutoffExact`). A nearest-first stream always meets
  that (`GeospatialQuery.CutoffLosesNothing`). The tree orders segments by projected distance while the cutoff compares
  distances on the sphere, and out of order a segment can be lost (`GeospatialQuery.CutoffCanLose`).
* A merge into the edge container stores no edge twice if and only if, in the merged list, an edge that is already stored is
  not ordered before any of its predecessors and any other edge occurs once (`ContractedEdges.ScanKeepsOnce` for the scan,
  `ContractExcludable.ContractExcludableGraph` for the whole run). Edge lists of contracted graphs are sorted by source and
  target only, which does not ensure that (`ContractExcludable.MergeOfEndsOrderCanDuplicate`); the views are right in any
  case.
* The file identifier stands directly behind the root word if and only if aligning the root word takes no padding, unless
  the identifier is all zero (`FlatLayout.DirectlyWhenNoGap`). That is so after any finished object
  (`FlatTraces.IdentifierOfRun`), but not always (`FlatTraces.IdentifierCanStandApart`).
* A record for both directions, made when their weights are equal, keeps the duration and distance of the forward one only
  (`ConversionRecords.RecordOfConversion`).
* A query edge keeps a duration if and only if it fits a signed field of 30 bits (`EdgeExport.DurationKept`).
* `createString` is documented to encode its argument as UTF-8. In the code an unpaired high surrogate is combined with
  whatever follows it, and at the very end becomes code point zero in four bytes; the model follows the code.

## Model

| member | source | states |
|---|---|---|
| CellCustomizer.Customize | backend-nodejs/osrm-backend/include/customizer/cell_customizer.hpp:113-134 | Whatever order the parallel loop takes the cells of each level in, after all levels every entry of every allowed source in every cell of every level holds the sums over a best walk along forward edges between allowed nodes of that cell: no other such walk weighs less, none of that weight lasts shorter, none of that weight and duration is shorter; without any walk it holds the three sentinels. Positions outside the rows of allowed sources keep their values |
| CellCustomizer.ExactEntry | backend-nodejs/osrm-backend/include/customizer/cell_customizer.hpp:86-109 | What an exact table says at offset + columns * row + column: the weight is INVALID exactly when no path inside the cell exists, and otherwise the triple is that of a best walk, compared by weight, then duration, then distance |
| CellCustomizer.DistanceIsBestWalk | backend-nodejs/osrm-backend/include/customizer/cell_customizer.hpp:182-226 | The distance over the arcs of a cell is the sums of weights, durations and distances of a walk that beats every other walk field by field |
| CellCustomizer.CustomizeLevel | backend-nodejs/osrm-backend/include/customizer/cell_customizer.hpp:122-133 | One level, its cells taken in any permutation: the cells of this level and of all lower ones end up exact |
| CellCustomizer.ScheduleIndependent | backend-nodejs/osrm-backend/include/customizer/cell_customizer.hpp:113-134 | Two customizations of the same tables, each with its own schedule, agree on all three values at every position of the tables |
| CellCustomizer.CustomizeCell | backend-nodejs/osrm-backend/include/customizer/cell_customizer.hpp:34-111 | One cell: rows of allowed sources become exact, rows of excluded sources and everything outside the cell's slice stay as they were |
| CellCustomizer.CustomizeSource | backend-nodejs/osrm-backend/include/customizer/cell_customizer.hpp:46-110 | One source: its row becomes exact and no value outside that row changes |
| CellCustomizer.Explore | backend-nodejs/osrm-backend/include/customizer/cell_customizer.hpp:53-84 | When the loop stops, by an empty heap or by an empty destination set, the label of every destination, or its absence, is its distance in the overlay of clique and border arcs |
| CellCustomizer.RelaxNode | backend-nodejs/osrm-backend/include/customizer/cell_customizer.hpp:138-232 | Scanning a removed node keeps the search sound, freezes the labels of removed nodes and leaves every removed node fully explored, although clique arcs may be skipped |
| CellCustomizer.RelaxClique | backend-nodejs/osrm-backend/include/customizer/cell_customizer.hpp:163-200 | The row of the sub-cell is read with the four iterators in step: after the loop every clique arc of the node is relaxed |
| CellCustomizer.RelaxBorder | backend-nodejs/osrm-backend/include/customizer/cell_customizer.hpp:203-231 | After the loop every border arc of the node inside the cell is relaxed |
| CellCustomizer.RelaxTo | backend-nodejs/osrm-backend/include/customizer/cell_customizer.hpp:182-193 | Insert, or decrease the key and replace the data when the triple is smaller; a key is only decreased while the node is still queued |
| CellCustomizer.RowEntry | backend-nodejs/osrm-backend/include/customizer/cell_customizer.hpp:169-199 | A readable entry that is not INVALID names an allowed destination of the same cell and is a clique arc, so the `continue` that would put the iterators out of step is never taken |
| CellCustomizer.EntryIsTableArc | backend-nodejs/osrm-backend/include/customizer/cell_customizer.hpp:163-169 | Every entry of an exact table one level below is an arc of the clique: its cost is the distance inside the sub-cell |
| CellCustomizer.TableArcHasEntry | backend-nodejs/osrm-backend/include/partitioner/cell_storage.hpp:134-144 | Conversely, every clique arc is found in the table, in the row and column that the storage computes for it |
| CellCustomizer.SkipCliques | backend-nodejs/osrm-backend/include/customizer/cell_customizer.hpp:154-161 | For a node that a clique arc reached, all its clique arcs are already relaxed |
| CellCustomizer.StoppedIsExact | backend-nodejs/osrm-backend/include/customizer/cell_customizer.hpp:65 | Stopping once no allowed destination is left loses nothing: each label to be written is already final |
| CellCustomizer.WriteRow | backend-nodejs/osrm-backend/include/customizer/cell_customizer.hpp:86-109 | The row holds, for each destination in order, the label or the three sentinels, and nothing else is written |
| CellCustomizer.RowFilled | backend-nodejs/osrm-backend/include/customizer/cell_customizer.hpp:86-109 | A row written from final labels is the exact row, and earlier rows of the cell stay exact |
| CellCustomizer.CellOutside | backend-nodejs/osrm-backend/include/partitioner/cell_storage.hpp:350-355 | Cells have disjoint value ranges, so filling one keeps the exact rows of every other cell |
| MultiLevel.OverlayDistance | backend-nodejs/osrm-backend/include/customizer/cell_customizer.hpp:163-215 | Between border nodes the overlay of sub-cell tables and border edges has exactly the distances of the cell's own graph |
| MultiLevel.ToOverlay | backend-nodejs/osrm-backend/include/customizer/cell_customizer.hpp:213-214 | A path inside the cell, split where it crosses sub-cell borders, has an overlay path that costs no more |
| MultiLevel.ToBase | backend-nodejs/osrm-backend/include/customizer/cell_customizer.hpp:163-169 | Every overlay path stands for a path inside the cell of the same cost |
| MultiLevel.CliqueTransitive | backend-nodejs/osrm-backend/include/customizer/cell_customizer.hpp:154-160 | The triangle inequality of the comment: two clique arcs in a row never beat the direct one |
| MultiLevel.OverlayPositive | backend-nodejs/osrm-backend/include/customizer/cell_customizer.hpp:203-215 | With positive edge weights all overlay arcs are positive, except that a clique loop may weigh zero |
| MultiLevel.BoundaryBelow | backend-nodejs/osrm-backend/include/partitioner/cell_storage.hpp:256-272 | A boundary node of a level is a boundary node of the level below |
| MultiLevel.ArcEnds | backend-nodejs/osrm-backend/include/partitioner/cell_storage.hpp:268-288 | An edge inside a cell from or to a boundary node makes that node a source or a destination of the cell's table |
| MultiLevel.CellData.PositionInjective | backend-nodejs/osrm-backend/include/partitioner/cell_storage.hpp:134-144 | Different row and column pairs of a cell have different positions |
| CliqueSearch.PruningLosesNothing | backend-nodejs/osrm-backend/include/customizer/cell_customizer.hpp:154-161 | When the best label of a node came from a clique arc, every clique arc of that node is already relaxed by the node the label came from |
| CliqueSearch.RelaxArc | backend-nodejs/osrm-backend/include/customizer/cell_customizer.hpp:186-193 | Relaxing an arc of the last removed node keeps every label the cost of a path, never touches a removed node, and so never decreases the key of one |
| CliqueSearch.SettledIsLeast | backend-nodejs/osrm-backend/include/customizer/cell_customizer.hpp:67-70 | The whole (weight, duration, distance) label is final when a node is removed, although the heap is keyed on weight alone |
| CliqueSearch.FinalLabel | backend-nodejs/osrm-backend/include/customizer/cell_customizer.hpp:65-106 | With an empty queue, or for a removed node, the label or its absence is the distance from the source |
| QueryHeaps.QueryHeap.Insert | backend-nodejs/osrm-backend/include/util/query_heap.hpp:231-238 | Adds a queued label for the node and changes nothing else, although the position index is never reset |
| QueryHeaps.QueryHeap.Clear | backend-nodejs/osrm-backend/include/util/query_heap.hpp:220-225 | Afterwards no node counts as inserted, whatever the stale positions say |
| QueryHeaps.QueryHeap.DeleteMin | backend-nodejs/osrm-backend/include/util/query_heap.hpp:327-334 | Removes a queued node of least weight and keeps its label |
| QueryHeaps.QueryHeap.DecreaseKey | backend-nodejs/osrm-backend/include/util/query_heap.hpp:354-361 | Changes the weight of one queued node and nothing else |
| QueryHeaps.QueryHeap.SetData | backend-nodejs/osrm-backend/include/util/query_heap.hpp:240-245 | Replaces duration, distance and origin mark of one node and nothing else |
| ContractorAdaptors.ConversionPreservesDistances | backend-nodejs/osrm-backend/include/contractor/graph_contractor_adaptors.hpp:18-134 | All shortest-path weights of the clamped input are those of the output, whichever way the parallel sort orders parallel edges |
| ContractorAdaptors.ConversionPreservesLeast | backend-nodejs/osrm-backend/include/contractor/graph_contractor_adaptors.hpp:18-134 | For distinct nodes the least weight s to t read from forward records at (s, t), or from backward records at (t, s), is the least clamped weight of the usable input edges |
| ContractorAdaptors.ConversionShape | backend-nodejs/osrm-backend/include/contractor/graph_contractor_adaptors.hpp:64-131 | Any possible output has no loops, no INVALID weights and at most one record per ordered pair and direction |
| ConversionRecords.RecordOfConversion | backend-nodejs/osrm-backend/include/contractor/graph_contractor_adaptors.hpp:18-134 | Each output record, in each direction it is open in, has the least weight of the usable input edges that can be travelled that way, raised to 1; duration and distance are the least of its forward direction, or of the backward one when it is not open forward; its id is the turn id of an input edge between its ends |
| ConversionRecords.RecordsOfInput | backend-nodejs/osrm-backend/include/contractor/graph_contractor_adaptors.hpp:18-134 | Conversely each usable input edge from s to t has a forward record at (s, t) and a backward record at (t, s) that weigh no more than the edge, raised to 1 |
| ContractorAdaptors.ToContractorGraph | backend-nodejs/osrm-backend/include/contractor/graph_contractor_adaptors.hpp:18-134 | The imperative conversion returns the compaction of some sorting of the mirrored input, the sort known by its contract only; what that is in terms of input fields say the two rows above |
| ContractorAdaptors.Compact | backend-nodejs/osrm-backend/include/contractor/graph_contractor_adaptors.hpp:64-131 | In place, with the write index never passing the read index, the array's prefix becomes the compaction of the old contents |
| ContractorAdaptors.MergeGroup | backend-nodejs/osrm-backend/include/contractor/graph_contractor_adaptors.hpp:89-108 | The scan of one group takes the minima of both directions |
| ContractorAdaptors.EmitFits | backend-nodejs/osrm-backend/include/contractor/graph_contractor_adaptors.hpp:110-128 | A group emits no more records than it has, because a group of one has equal weights both ways |
| ContractorAdaptors.CompactedLeast | backend-nodejs/osrm-backend/include/contractor/graph_contractor_adaptors.hpp:64-131 | Compaction keeps the least weight of every pair of distinct nodes in both kinds of record |
| ContractorAdaptors.CompactedShape | backend-nodejs/osrm-backend/include/contractor/graph_contractor_adaptors.hpp:64-131 | Compaction of a sorted list leaves at most one forward and one backward record per ordered pair |
| ContractorAdaptors.MirrorLeast | backend-nodejs/osrm-backend/include/contractor/graph_contractor_adaptors.hpp:40-60 | Mirroring records each direction twice: forward at (s, t) and backward at (t, s) |
| ContractorAdaptors.LeastIsMinimum | backend-nodejs/osrm-backend/include/contractor/graph_contractor_adaptors.hpp:93 | The least weight is a lower bound that some record attains |
| ContractorAdaptors.LeastOfPermutation | backend-nodejs/osrm-backend/include/contractor/graph_contractor_adaptors.hpp:62 | Sorting does not change the least weights |
| EdgeExport.ToEdges | backend-nodejs/osrm-backend/include/contractor/graph_contractor_adaptors.hpp:136-176 | Filling a vector of the known size list by list, with an index that ends at its size, and sorting it gives a permutation of the specified list that is sorted by source and target |
| EdgeExport.ExportedEdges | backend-nodejs/osrm-backend/include/contractor/graph_contractor_adaptors.hpp:136-176 | Any such result is, up to its order, the list of the graph's records: source, target, shortcut, weight, distance and both flags as they are, the id modulo 2^31, the duration modulo 2^30 as a signed number; it is in order of source, then target |
| EdgeExport.ExportKeepsArcs | backend-nodejs/osrm-backend/include/contractor/graph_contractor_adaptors.hpp:136-176 | Every directed arc and its weight is kept, and none is added |
| EdgeExport.PipelinePreservesDistances | backend-nodejs/osrm-backend/include/contractor/graph_contractor_adaptors.hpp:18-176 | From the input through a contractor graph that holds the converted edges to the query edges no shortest-path weight changes, for any storage order of the graph and any order of parallel edges |
| EdgeExport.DurationKept | backend-nodejs/osrm-backend/include/contractor/query_edge.hpp:48-54 | The 30-bit field of a query edge keeps a duration exactly when it lies in its signed range |
| ContractedEdges.ContractedEdgeContainer.Insert | backend-nodejs/osrm-backend/include/contractor/contracted_edge_container.hpp:52-59 | Every view holds all inserted edges |
| ContractedEdges.ContractedEdgeContainer.Filter | backend-nodejs/osrm-backend/include/contractor/contracted_edge_container.hpp:61-78 | View i becomes the edges whose two ends are allowed, other views stay |
| ContractedEdges.ContractedEdgeContainer.Merge | backend-nodejs/osrm-backend/include/contractor/contracted_edge_container.hpp:80-144 | The view of this merge gains exactly the merged edges, all other views stay, no stored edge is lost and none is invented, and the edges come out ordered by source, then target, shortcut, turn id, weight, duration, forward and backward; from a sorted container, or one that shares no edge with the list, the result is free of repetition if and only if it was before and the list satisfies the condition of `MergesOnce` |
| ContractedEdges.ContractedEdgeContainer.MarkKnown | backend-nodejs/osrm-backend/include/contractor/contracted_edge_container.hpp:91-122 | The one-pass scan with a single cursor computes the specified marking and remainder |
| ContractedEdges.ContractedEdgeContainer.SortTogether | backend-nodejs/osrm-backend/include/contractor/contracted_edge_container.hpp:132-143 | Edges and flags are permuted alike by some permutation that puts the edges into `mergeCompare` order, equal ones in any order |
| ContractedEdges.ContractedEdgeContainer.MakeEdgeFilters | backend-nodejs/osrm-backend/include/contractor/contracted_edge_container.hpp:146-159 | Filter i is true exactly at the edges of view i |
| ContractedEdges.MergableIsKeyEquality | backend-nodejs/osrm-backend/include/contractor/contracted_edge_container.hpp:45-49 | `mergable` is equality of everything but the distance |
| ContractedEdges.CompareIsFieldOrder | backend-nodejs/osrm-backend/include/contractor/contracted_edge_container.hpp:26-43 | `mergeCompare` is the lexicographic order of the eight fields, written out |
| ContractedEdges.FlagOperations | backend-nodejs/osrm-backend/include/contractor/contracted_edge_container.hpp:64-76 | Setting or clearing flag i changes the answer for i only |
| ContractedEdges.ScanView | backend-nodejs/osrm-backend/include/contractor/contracted_edge_container.hpp:91-130 | Marking known edges and appending the others adds the new edges to one view whatever the order of the lists |
| ContractedEdges.ScanKeepsOnce | backend-nodejs/osrm-backend/include/contractor/contracted_edge_container.hpp:91-122 | Exactly when the single cursor keeps nothing twice: for strictly sorted edges no kept edge is stored or kept again if and only if each stored edge of the list is not ordered before any of its predecessors and any other edge occurs once; for a cursor that starts further on, if and only if no stored edge of the list lies before it either |
| ContractedEdges.ScanOnce | backend-nodejs/osrm-backend/include/contractor/contracted_edge_container.hpp:91-130 | The same for the whole list of edges after marking and appending, when the container is sorted or shares no edge with the list |
| ContractedEdges.UnstoredIsKept | backend-nodejs/osrm-backend/include/contractor/contracted_edge_container.hpp:95-121 | An edge that is not stored is kept, wherever the cursor starts and however the lists are ordered |
| ContractedEdges.StrictMergesOnce | backend-nodejs/osrm-backend/include/contractor/contracted_edge_container.hpp:143 | A strictly sorted list meets the condition, whatever is stored |
| ContractedEdges.StrictIsDistinct | backend-nodejs/osrm-backend/include/contractor/contracted_edge_container.hpp:143 | Strictly sorted means sorted and without two equal edges |
| ContractedEdges.MergedViews | backend-nodejs/osrm-backend/include/contractor/contracted_edge_container.hpp:80-144 | Views after marking, appending and sorting |
| ContractedEdges.MergedOrder | backend-nodejs/osrm-backend/include/contractor/contracted_edge_container.hpp:132-143 | After marking, appending and sorting in any way the edges are sorted, hold old and new keys, and are free of repetition under the stated condition |
| Permutation.InplacePermutation | backend-nodejs/osrm-backend/include/util/permutation.hpp:22-57 | Walking the cycles moves every element i to position old_to_new[i] |
| Permutation.OrderingToPermutation | backend-nodejs/osrm-backend/include/util/permutation.hpp:60-67 | The result is the inverse of the ordering |
| ContractExcludable.ContractExcludableGraph | backend-nodejs/osrm-backend/include/contractor/contract_excludable_graph.hpp:27-94 | Each filter's selection is exactly the non-core edges it allows together with its contracted core; a single all-true filter gives the whole graph; otherwise every stored edge is, in full, a non-core edge or one of a contracted core, no non-core edge is lost, the edges are in order of the eight fields, so of source and target, and no edge is stored twice if and only if the non-core edges are distinct and each contracted core meets the merge condition against what is stored before it |
| ContractExcludable.StoredOnceNext | backend-nodejs/osrm-backend/include/contractor/contract_excludable_graph.hpp:81-89 | The condition for a run of merges is that of the shorter run and that of the last merge against the edges stored so far |
| ContractExcludable.KeysOutsideApart | backend-nodejs/osrm-backend/include/contractor/contract_excludable_graph.hpp:63-79 | Edges with an end outside the core share no key with edges inside it, so the first merge meets no stored edge |
| ContractExcludable.AlwaysAllowed | backend-nodejs/osrm-backend/include/contractor/contract_excludable_graph.hpp:45-52 | A node stays contractable exactly when every filter allows it |
| ContractExcludable.RemoveCoreEdges | backend-nodejs/osrm-backend/include/contractor/contract_excludable_graph.hpp:63-68 | The loop keeps the edges with an end outside the core, in their order |
| ContractExcludable.ContainerAndCore | backend-nodejs/osrm-backend/include/contractor/contract_excludable_graph.hpp:61-80 | Container and shared core together hold every contracted edge exactly as often as the contracted graph |
| ContractExcludable.CoreEdges | backend-nodejs/osrm-backend/include/contractor/contract_excludable_graph.hpp:77-79 | The shared core keeps an edge exactly when both ends lie in the core |
| ContractExcludable.NonCore | backend-nodejs/osrm-backend/include/contractor/contract_excludable_graph.hpp:63-68 | An edge is kept exactly when it is listed and an end lies outside the core |
| ContractExcludable.MergeOfEndsOrderCanDuplicate | backend-nodejs/osrm-backend/include/contractor/query_edge.hpp:64-67 | The condition can fail in a run of the engine: two contracted cores, each sorted by source and target and without repetition, list the same two parallel edges in different orders |
| DataWatchdog.ServedPairsCoexisted | backend-nodejs/osrm-backend/include/engine/data_watchdog.hpp:77-88 | Every facade that `Get` returns was built from a static and an updatable region that stood in the register together at one instant |
| DataWatchdog.ServedTimestampsNeverDecrease | backend-nodejs/osrm-backend/include/engine/data_watchdog.hpp:77-88 | Later calls of `Get` never return older data |
| DataWatchdog.WaitsOnlyWhenCurrent | backend-nodejs/osrm-backend/include/engine/data_watchdog.hpp:97-101 | Whenever the watchdog goes to wait, the facade it serves is what the register holds |
| DataWatchdog.NoLostUpdate | backend-nodejs/osrm-backend/include/engine/data_watchdog.hpp:91-127 | A watchdog that sleeps without a pending wake-up serves the last published value unless its publisher is still about to notify |
| DataWatchdog.UpdateIsServed | backend-nodejs/osrm-backend/include/engine/data_watchdog.hpp:91-127 | Progress: from every reachable state with the mutex free and no reader, the pending notification and the steps of the watchdog thread are enabled in turn and end with the factory serving what the register holds |
| DataWatchdog.UpdateReachesReaders | backend-nodejs/osrm-backend/include/engine/data_watchdog.hpp:77-127 | After a publisher has rewritten a region, notification and watchdog can run until the next call of `Get` returns the new key under the raised timestamp, together with the other region as it was |
| DataWatchdog.RunKeepsInvariant | backend-nodejs/osrm-backend/include/engine/data_watchdog.hpp:91-130 | The invariant of register, watcher and readers holds after every prefix of every interleaving |
| DataWatchdog.PublishedWasRegister | backend-nodejs/osrm-backend/src/storage/storage.cpp:94-136 | Each value in the history was the register's content while nobody held the mutex |
| FlatRuns.Run | backend-nodejs/osrm-backend/features/support/flatbuffers.js:290-774 | Any calls in any order, `finish` and the three steps of a vector among them: the trace shows snapshots before and after each call that are related by the effect of that call, starts at the initial builder and ends at the final one; the run stops early only at a call that is not allowed or that fails for a stated reason; every table finished before or during the run answers every slot, and earlier bytes keep their place from the end |
| FlatRuns.Perform | backend-nodejs/osrm-backend/features/support/flatbuffers.js:290-774 | One allowed call: it keeps the builder consistent, loses no byte, recorded scalar or table, and either has the effect of `Effect` on data, slots, tables and recorded scalars or fails because the buffer cannot grow, an object is open, none is open, or the identifier has a wrong length |
| FlatTraces.FinishAligns | backend-nodejs/osrm-backend/features/support/flatbuffers.js:290-307 | In every run, once `finish` has returned, each scalar, stored field, offset and length word written before stands at a multiple of its own size from the front |
| FlatTraces.FinishAlignsElements | backend-nodejs/osrm-backend/features/support/fbresult_generated.js:841-847 | The same for every element of every created vector |
| FlatTraces.FieldOfRun | backend-nodejs/osrm-backend/features/support/flatbuffers.js:422-463 | In every run a value added to an object, with any other calls before the object ends and after, is what the accessor reads in every later buffer, stored or elided, as soon as the vtable fits |
| FlatTraces.OffsetFieldOfRun | backend-nodejs/osrm-backend/features/support/flatbuffers.js:494-499 | In every run an offset added to an object leads to its target in every later buffer |
| FlatTraces.ClosedTableOfRun | backend-nodejs/osrm-backend/features/support/flatbuffers.js:618-677 | The table that `endObject` leaves in a run reads back exactly when its vtable fits, and then to the end of the run, with the slots as they were when the object ended |
| FlatTraces.VectorOfRun | backend-nodejs/osrm-backend/features/support/flatbuffers.js:747-763 | Starting a vector, adding its elements last one first and ending it leaves the same whole vector as the one-call form, with an aligned length word |
| FlatTraces.IdentifierOfRun | backend-nodejs/osrm-backend/features/support/flatbuffers.js:687-707 | After any object has ended in a run, `finish` puts the identifier directly behind the root word |
| FlatTraces.IdentifierCanStandApart | backend-nodejs/osrm-backend/features/support/flatbuffers.js:687-707 | Without one it need not: one int8 and `finish` with identifier `ABCD` succeed and put it at 7 and not at 4 |
| FlatLayout.DirectlyWhenNoGap | backend-nodejs/osrm-backend/features/support/flatbuffers.js:687-707 | The identifier is found directly behind the root word if and only if aligning the root word needs no padding, or the identifier is four zero bytes |
| FlatRuns.FieldRoundTrip | backend-nodejs/osrm-backend/features/support/flatbuffers.js:422-463 | A field reads back as the value that was added, whether it was stored or elided as the default |
| FlatRuns.OffsetFieldResolves | backend-nodejs/osrm-backend/features/support/flatbuffers.js:1203-1205 | An offset field of a finished table leads to the object it was given |
| FlatRuns.StringReads | backend-nodejs/osrm-backend/features/support/flatbuffers.js:1140-1196 | Reading back a stored string gives the same string exactly when each high surrogate is followed by a low one |
| FlatBuilder.Builder.constructor | backend-nodejs/osrm-backend/features/support/flatbuffers.js:149-160 | A new builder is consistent and empty; an initial size of zero becomes 1024 |
| FlatBuilder.Builder.Prep | backend-nodejs/osrm-backend/features/support/flatbuffers.js:290-308 | Terminates, keeps all written bytes relative to the end, leaves room for the element and what follows, and makes the offset plus the additional bytes divisible by the size; it fails only when there was too little room and the buffer cannot grow |
| FlatBuilder.Builder.Grow | backend-nodejs/osrm-backend/features/support/flatbuffers.js:566-579 | The buffer doubles and keeps its written bytes; from 2^30 bytes on, and only then, it fails and stays as it was |
| FlatBuilder.Builder.AddScalar | backend-nodejs/osrm-backend/features/support/flatbuffers.js:366-396 | The scalar stands in front lowest byte first, written out byte by byte, with the low half of a 64-bit number first; it stands at a multiple of its size, with zero padding behind |
| FlatBuilder.Builder.AddOffset | backend-nodejs/osrm-backend/features/support/flatbuffers.js:587-590 | The word holds, lowest byte first, the distance from itself to the object |
| FlatBuilder.Builder.AddField | backend-nodejs/osrm-backend/features/support/flatbuffers.js:422-463 | A value is elided exactly when it equals its default and defaults are not forced; a stored one stands aligned in front, its slot says so, and exactly it joins the recorded scalars |
| FlatBuilder.Builder.AddFieldOffset | backend-nodejs/osrm-backend/features/support/flatbuffers.js:494-499 | The same for offsets, with four bytes |
| FlatBuilder.Builder.StartObject | backend-nodejs/osrm-backend/features/support/flatbuffers.js:600-611 | Opens an object with all slots unset, or fails when one is open already |
| FlatBuilder.Builder.EndObject | backend-nodejs/osrm-backend/features/support/flatbuffers.js:618-677 | The closed object joins the finished tables, all older ones keep reading, it reads back exactly when its vtable fits, its offset word is recorded as aligned, and the new vtable is shared exactly when an equal one was stored before; byte by byte, the table's first word leads back to a vtable that holds its size, the size of the table and the places of the fields |
| FlatTables.LinkedStands | backend-nodejs/osrm-backend/features/support/flatbuffers.js:618-677 | A linked vtable, shared or new, holds its size, the size of the table, and for each slot up to the last stored one the distance to the field or 0, all lowest byte first |
| FlatBuilder.Builder.FindVtable | backend-nodejs/osrm-backend/features/support/flatbuffers.js:640-655 | The word-by-word search finds a matching earlier vtable exactly when there is one |
| FlatBuilder.Builder.ShareVtable | backend-nodejs/osrm-backend/features/support/flatbuffers.js:657-663 | Rewinding `space` over the new vtable keeps every promise and links the table to the old vtable |
| FlatBuilder.Builder.KeepVtable | backend-nodejs/osrm-backend/features/support/flatbuffers.js:664-672 | The new vtable is remembered and linked |
| FlatBuilder.Builder.WriteVtable | backend-nodejs/osrm-backend/features/support/flatbuffers.js:626-637 | Writes the entries up to the last stored slot and the two sizes |
| FlatBuilder.Builder.CountTrimmed | backend-nodejs/osrm-backend/features/support/flatbuffers.js:626-628 | Counts the slots up to the last stored one |
| FlatLayout.KnownIsMatched | backend-nodejs/osrm-backend/features/support/flatbuffers.js:640-655 | Comparing words from the second on finds exactly the vtables with equal bytes whose size fits a signed 16-bit number |
| FlatBuilder.Builder.StartVector | backend-nodejs/osrm-backend/features/support/flatbuffers.js:747-752 | Leaves room for elements and length, aligned so that no padding is needed between them |
| FlatBuilder.Builder.EndVector | backend-nodejs/osrm-backend/features/support/flatbuffers.js:760-763 | Writes the announced number of elements into the room that was left, and the word counts as aligned exactly when it stands at a multiple of four |
| FlatBuilder.Builder.CreateScalarVector | backend-nodejs/osrm-backend/features/support/fbresult_generated.js:841-847 | Elements of size 1, 2, 4 or 8 stand side by side behind the length word, each lowest byte first and the first one in front, and all of them and the length word are recorded as aligned |
| FlatBuilder.Builder.CreateOffsetVector | backend-nodejs/osrm-backend/features/support/fbresult_generated.js:524-530 | The same for offsets, each relative to its own place |
| FlatBuilder.Builder.CreateString | backend-nodejs/osrm-backend/features/support/flatbuffers.js:774-821 | Length word lowest byte first, the UTF-8 form and a zero byte stand side by side and the length word is recorded as aligned; a nested call fails |
| FlatBuilder.Builder.CreateUtf8 | backend-nodejs/osrm-backend/features/support/flatbuffers.js:774-821 | The same for text that is given as bytes |
| FlatBuilder.Builder.Finish | backend-nodejs/osrm-backend/features/support/flatbuffers.js:687-707 | Every recorded scalar stands at a multiple of its size from the front; the root word, byte by byte, is the distance from itself to the root table, and the size prefix the number of bytes behind it; behind the root word stand the zero bytes that aligning it takes and then the identifier; it fails for a wrong identifier length, and otherwise only when the buffer cannot grow |
| FlatTables.TableSurvives | backend-nodejs/osrm-backend/features/support/flatbuffers.js:1109-1112 | A finished table reads the same after anything is put in front of it |
| FlatTables.ConsistentSurvives | backend-nodejs/osrm-backend/features/support/flatbuffers.js:290-308 | Open object, vtables, tables and aligned scalars all survive new bytes in front |
| FlatTables.VtableAnswers | backend-nodejs/osrm-backend/features/support/flatbuffers.js:1109-1112 | `__offset` locates each stored slot and returns 0 for unset, elided and trimmed ones |
| FlatTables.ReadsExactlyWhenFits | backend-nodejs/osrm-backend/features/support/flatbuffers.js:626-637 | A closed table reads back exactly when its vtable size and every stored entry are below 2^15 |
| FlatTables.OversizedMisreads | backend-nodejs/osrm-backend/features/support/flatbuffers.js:1109-1112 | Otherwise some slot gets a wrong answer |
| FlatTables.MatchIsStored | backend-nodejs/osrm-backend/features/support/flatbuffers.js:642-655 | A vtable found by comparing words has the new vtable's bytes and predates it |
| FlatTables.ClosedConsistent | backend-nodejs/osrm-backend/features/support/flatbuffers.js:618-677 | Closing an object keeps every earlier promise and adds the new one |
| FlatVectors.VectorReads | backend-nodejs/osrm-backend/features/support/flatbuffers.js:1213-1225 | `__vector_len` is the number of elements and element i reads back |
| FlatVectors.OffsetVectorResolves | backend-nodejs/osrm-backend/features/support/flatbuffers.js:1203-1225 | Element i of an offset vector leads through `__indirect` to the object passed in |
| FlatBytes.ReadsScalar | backend-nodejs/osrm-backend/features/support/flatbuffers.js:366-396 | Each reader returns what its writer wrote, for values of the type |
| FlatBytes.ReadLowByteFirst | backend-nodejs/osrm-backend/features/support/flatbuffers.js:941-943 | The four bytes at the offset are the number that the reader returns, lowest byte first |
| FlatBytes.AlignSizeAligns | backend-nodejs/osrm-backend/features/support/flatbuffers.js:296-298 | The masked two's complement is the padding to the next multiple of a power of two |
| Utf8.StringRoundTrip | backend-nodejs/osrm-backend/features/support/flatbuffers.js:774-821 | Decoding the encoded units gives them back exactly when high surrogates are paired |
| Utf8.EncodeConforms | backend-nodejs/osrm-backend/features/support/flatbuffers.js:784-814 | For well-formed UTF-16 (section 2.1 of RFC 2781) the bytes are the UTF-8 form of section 3 of RFC 3629 |
| Utf8.EncodeUnits | backend-nodejs/osrm-backend/features/support/flatbuffers.js:781-815 | The conversion loop computes the specified bytes |
| Utf8.ReadString | backend-nodejs/osrm-backend/features/support/flatbuffers.js:1140-1196 | The reading loop computes the specified units |
| Utf8.DecodesCode | backend-nodejs/osrm-backend/features/support/flatbuffers.js:1159-1184 | Each code point below 2^21 survives its own bytes |
| Utf8.LeadPrefix | backend-nodejs/osrm-backend/features/support/flatbuffers.js:1159-1184 | Any bytes, well-formed or not: the prefix 110, 1110 or 1111 of the lead byte fixes two, three or four bytes, anything else is one byte as it is, and the rest of the bits make the code point |
| GeospatialQuery.NearestFirstIsComplete | backend-nodejs/osrm-backend/include/engine/geospatial_query.hpp:87-177 | On a nearest-first stream the search keeps exactly the wanted segments within the maximal distance: valid ones at the first valid location, or at the first valid big one when in a big component |
| GeospatialQuery.CutoffLosesNothing | backend-nodejs/osrm-backend/include/engine/geospatial_query.hpp:161-174 | The cutoff behind the big component drops no wanted segment, from any state of the search |
| GeospatialQuery.CutoffExact | backend-nodejs/osrm-backend/include/engine/geospatial_query.hpp:161-174 | On any stream and from any state the results are all wanted segments within the maximal distance if and only if no such segment stands at or behind a place where the search stops |
| GeospatialQuery.CutoffCanLose | backend-nodejs/osrm-backend/include/engine/geospatial_query.hpp:163-165 | Out of order a loss does occur: a concrete stream loses a segment at the big location |
| GeospatialQuery.SearchSelects | backend-nodejs/osrm-backend/include/engine/geospatial_query.hpp:111-160 | On any stream the filter, which decides on the fly, keeps exactly the wanted segments of the explored part |
| GeospatialQuery.SearchKeeps | backend-nodejs/osrm-backend/include/engine/geospatial_query.hpp:111-160 | Every result of the search comes from a segment of the stream at the same place, with the same ids, and has a direction on; forward is on exactly when it was, its weight is valid, it is a start point or all edges are asked for, its id is not excluded, the bearing allows it, and the input lies on the side that approach and driving side ask for; the same for reverse with the opposite side |
| GeospatialQuery.MaskedIsKept | backend-nodejs/osrm-backend/include/engine/geospatial_query.hpp:465-584 | The same for one segment, and a segment is valid exactly when a direction stays on |
| GeospatialQuery.AlternativesAreBig | backend-nodejs/osrm-backend/include/engine/geospatial_query.hpp:94-160 | Results away from the nearest location are in big components and share one location; there are none when the first result is in a big component |
| GeospatialQuery.Snapping.Filter | backend-nodejs/osrm-backend/include/engine/geospatial_query.hpp:111-160 | One segment: the captured flags and coordinates change as specified |
| GeospatialQuery.Snapping.Terminate | backend-nodejs/osrm-backend/include/engine/geospatial_query.hpp:161-174 | Stops behind the big component or the maximal distance |
| GeospatialQuery.Snapping.Nearest | backend-nodejs/osrm-backend/include/util/static_rtree.hpp:594-630 | Terminate is asked first, then the filter, then the masked segment is stored; every result comes from a segment of the stream and keeps exactly the directions that the request can use, field by field |
| GeospatialQuery.NearestCandidates | backend-nodejs/osrm-backend/include/engine/geospatial_query.hpp:87-177 | The two candidate lists are those of the results at and away from the nearest location, and the second is empty when the first result is in a big component; every candidate comes from a segment of the stream, at the one location or elsewhere and in a big component, and keeps exactly the directions that the request can use, at least one |
| GeospatialQuery.ResultsGiveCandidates | backend-nodejs/osrm-backend/include/engine/geospatial_query.hpp:180-274 | The candidates made of a search are edges of the stream with the directions that the request can use, field by field |
| GeospatialQuery.MakeAlternativeBigCandidates | backend-nodejs/osrm-backend/include/engine/geospatial_query.hpp:180-274 | Results are split by location and folded into candidates |
| GeospatialQuery.AddToCandidates | backend-nodejs/osrm-backend/include/engine/geospatial_query.hpp:193-260 | One step of the fold |
| GeospatialQuery.CandidatesAreBest | backend-nodejs/osrm-backend/include/engine/geospatial_query.hpp:193-260 | One candidate for each (forward id, reverse id) pair among the results, and it is the best by both directions enabled, then lower position |
| GeospatialQuery.OrderIndependent | backend-nodejs/osrm-backend/include/engine/geospatial_query.hpp:262-272 | Every permutation of results with distinct positions gives the same candidates |
| GeospatialQuery.TruthTable | backend-nodejs/osrm-backend/include/engine/geospatial_query.hpp:221-240 | The table of the comment, in both orders of arrival |
| GeospatialQuery.ReplacesIsPreference | backend-nodejs/osrm-backend/include/engine/geospatial_query.hpp:241-258 | The replacement test is the preference order |
| RouteCollapse.Collapse | backend-nodejs/osrm-backend/include/engine/internal_route_result.hpp:87-152 | The loop over four parallel vectors computes the grouped legs; on the fields of the route: each segment stands at its place, and only the first one of a leg that continues another gets back reverse or forward weight and duration of the leg's source phantom, as the leg is travelled; sources, targets and leg sizes are those of the group's ends; a single leg is returned unchanged |
| RouteCollapse.LegEnds | backend-nodejs/osrm-backend/include/engine/internal_route_result.hpp:107-126 | Each output leg runs from the source of its first part to the target of its last part, flags included, has the segments of its parts, and its number is the count of true bits |
| RouteCollapse.SegmentPlaced | backend-nodejs/osrm-backend/include/engine/internal_route_result.hpp:127-146 | Segment k of leg i stands in output leg number Count - 1, behind the segments of the earlier parts of that leg |
| RouteCollapse.SegmentsInOrder | backend-nodejs/osrm-backend/include/engine/internal_route_result.hpp:127-146 | All output segments are the input's in order, raised by the source part where a leg continues another one |
| RouteCollapse.CollapseConserves | backend-nodejs/osrm-backend/include/engine/internal_route_result.hpp:134-146 | Weight and duration grow by exactly the travelled source parts of the non-empty continued legs |
| RouteCollapse.TotalDuration | backend-nodejs/osrm-backend/include/engine/internal_route_result.hpp:64-73 | The nested loop sums the durations of all segments |
| RouteCollapse.CollapseTwice | backend-nodejs/osrm-backend/include/engine/internal_route_result.hpp:87-152 | Collapsing twice equals collapsing once with the combined mask if and only if no empty leg with a non-zero source part starts an inner group that goes on and is itself joined |
| RouteCollapse.CollapseTwiceCanDiffer | backend-nodejs/osrm-backend/include/engine/internal_route_result.hpp:127-146 | A concrete route where it differs |
| RouteCollapse.JoinAssociates | backend-nodejs/osrm-backend/include/engine/internal_route_result.hpp:127-146 | Joining legs is associative except at such a leg |
| Base64.RoundTrip | backend-nodejs/osrm-backend/include/engine/base64.hpp:48-112 | Decoding the encoding of any bytes gives them back |
| Base64.EncodesAsRfc4648 | backend-nodejs/osrm-backend/include/engine/base64.hpp:48-68 | The encoder, which regroups a stream of bits, produces the text of section 4 of RFC 4648 over the alphabet of its table 1, given as one string |
| Base64.AlphabetAt | backend-nodejs/osrm-backend/include/engine/base64.hpp:31-43 | Both directions agree with that string at every place |
| Base64.PadOnlyAtEnd | backend-nodejs/osrm-backend/include/engine/base64.hpp:53-68 | The length is four times the number of started triples, and the pad characters stand at the end only, as many as bytes are missing |
| Base64.EncodedConcat | backend-nodejs/osrm-backend/include/engine/base64.hpp:48-68 | Encoding distributes over concatenation when the left part is whole triples |
| Base64.EncodeBase64 | backend-nodejs/osrm-backend/include/engine/base64.hpp:48-68 | The padding loop computes the specified text |
| Base64.DecodeBase64 | backend-nodejs/osrm-backend/include/engine/base64.hpp:100-112 | Counts the pads, reads them as zero bits, drops as many bytes; a foreign character is an error |
| Base64.RegroupBack | backend-nodejs/osrm-backend/include/engine/base64.hpp:31-43 | Regrouping bits there and back is the identity when they come out even |
| Base64.PaddingIsZero | backend-nodejs/osrm-backend/include/engine/base64.hpp:57-67 | The groups that the pads replace are zero |
| Base64.HintFromBase64 | backend-nodejs/osrm-backend/src/engine/hint.cpp:37-49 | Undoes the URL-safe replacement and copies the decoded bytes over a newly created struct, whose rest stays as it was; a foreign character is an error |
| Base64.HintRoundTrip | backend-nodejs/osrm-backend/src/engine/hint.cpp:26-49 | A segment hint comes back from its URL-safe text, whatever the new struct held |
| Base64.HintsAreOneText | backend-nodejs/osrm-backend/src/engine/hint.cpp:63-71 | The text of several hints is the text of section 4 of their bytes put together, character by character, with - for + and _ for / |
| Base64.HintsFromBase64 | backend-nodejs/osrm-backend/src/engine/hint.cpp:73-92 | Cuts the text into pieces of 112 characters and decodes each |
| Base64.HintsRoundTrip | backend-nodejs/osrm-backend/src/engine/hint.cpp:63-92 | Every hint of a list comes back at its place |
| CourierDispatch.GetDeliveries | backend-nodejs/src/services/coursierService.js:163-217 | Takes the first order of least distance when it is in range, removing exactly its index; otherwise the queue is unchanged and every order is out of range; an empty queue means waiting |
| CourierDispatch.Wait | backend-nodejs/src/services/coursierService.js:172-187 | On a stable list with an order in range, n rounds examine the last but one order first, then towards the front, and the last one at the end; the loop takes the first in range, and the rest is the list turned by the number of rounds without it |
| CourierDispatch.Round | backend-nodejs/src/services/coursierService.js:173-187 | One round: the list is turned by one, and its last order is taken out when in range, otherwise put back |
| CourierDispatch.AllExamined | backend-nodejs/src/services/coursierService.js:172-187 | In as many rounds as there are orders each order is examined exactly once |
| CourierDispatch.HitAfter | backend-nodejs/src/services/coursierService.js:173-186 | What a hit after k misses takes out and what stays |
| CourierDispatch.MarkRemoved | backend-nodejs/src/setupredis.js:66-73 | Writing the mark over entry i and removing one mark removes exactly entry i |
| CourierDispatch.OrderQueue.GetOrderAtRemove | backend-nodejs/src/setupredis.js:66-73 | Returns order i and removes exactly it; outside the list it fails and changes nothing |
| CourierDispatch.OrderQueue.AddOrder | backend-nodejs/src/setupredis.js:44-46 | Appends the order |
| CourierDispatch.OrderQueue.GetOrder | backend-nodejs/src/setupredis.js:48-51 | Takes the last order, or null from an empty list |
| CourierDispatch.OrderQueue.GetOrderAt | backend-nodejs/src/setupredis.js:58-65 | Reads order i, or null outside the list |
| CourierDispatch.OrderQueue.Rotate | backend-nodejs/src/services/coursierService.js:173 | Moves the last entry to the front |

## Left out

- CellCustomizer.Customize: integer widths of weights are not modelled (sums are unbounded, INVALID is a separate value), distances are reals instead of floats, and cells of a level run one after the other, in any order, with one heap instead of one for each thread.
- ContractorAdaptors.ToContractorGraph: the logging is left out.
- EdgeExport.PipelinePreservesDistances: the contraction that runs between the two conversions is not part of this model, so the graph holds converted edges only.
- ContractExcludable.ContractExcludableGraph: contraction itself is not modelled; the contracted edge lists are parameters.
- DataWatchdog.RunKeepsInvariant: the shutdown flag, the wrap-around of 64-bit timestamps, the semaphore ring behind the condition, and waiting for a reader's facade to be released are left out.
- FlatBuilder.Builder.constructor: initial sizes from 2^31 on are not modelled; growing stops with an error at 2^30 bytes as in the original.
- FlatBuilder.Builder.AddField: float fields, structs, unions, `requiredField` and `clear` are not modelled.
- FlatBuilder.Builder.EndVector: room for the length word is required; the original writes outside the buffer when more elements were added than announced.
- FlatRuns.Run: between the start and the end of a vector only elements of its size are allowed, no more than announced, as generated code does.
- GeospatialQuery.Snapping.Nearest: the tree that produces the stream of segments is not modelled; geometry, weights and components are functions of the query.
- GeospatialQuery.NearestCandidates: a candidate is represented by the edge data it is made from; offsets and ratios of the phantom node are left out.
- RouteCollapse.Collapse: sums are unbounded integers.
- Base64.DecodeBase64: lengths that are not a multiple of four, and more pad characters than decoded bytes, are undefined in the original and excluded.
- CourierDispatch.Wait: the list is stable while one courier waits and blocking for a first order is not modelled; JSON text is identified with the order, and distance is a pure function.
- CourierDispatch.GetDeliveries: registering the waiting courier and logging are left out.
- The polyline codec, tile and file formats, the R-tree, routing queries, and the rest of the Node backend (routes, models, payment, mail, notifications) are not part of this model.
