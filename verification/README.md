# Verified model of the CUDA C++ core repository's algorithmic tools

This Dafny project models the algorithms in the continuous-integration, benchmark, documentation and
debugger tools of the repository and proves what they promise. Run `dafny verify dfyconfig.toml` here to
check it.

| Modules | What they model |
|---|---|
| `Ticks`, `TraceNesting`, `ExclusiveTime`, `TraceConservation` | compiler trace events linked into parents and children by a stack sweep; exclusive time and its conservation, up to the report on a trace |
| `TraceStats`, `TraceFigures`, `ComparisonTables`, `TraceReports`, `TraceComparison`, `ComparisonFigures` | statistics per identity, merged in place in any completion order, ranked reports, comparison of two traces |
| `MangledNames` | scope prefixes read from mangled names |
| `WeightedTime`, `GridMeasure` | elapsed build time shared between running tasks |
| `RebuildGraph`, `RebuildStatus`, `DirtyFiles`, `ChangeInspection` | which projects a change makes dirty |
| `CoopLayout`, `CoopPhases` | blocked, striped and warp-striped ownership and the exchanges between them |
| `BuildLanes`, `LaneProtocol` | lanes, their queue and the GPU locks, as a state machine over all runs |
| `LowlandModes` | peaks and modes of a histogram |
| `SassNormalForm`, `CommentBudget`, `Utf8` | the normal form of disassembled kernels and the size of the report comment |
| `CodeSpan` | Markdown code spans that read back |
| `DeviceIterator` | the buffered iterator over a device vector |
| `Sorting`, `Sums`, `Division`, `Numerals`, `Wrappers` | stable sorting, filtering and distinctness, division facts, decimal numerals and optional values, shared by the others |

Where the source updates objects or loops, the model has classes and methods with loops, each proved
against a specification function or predicate; the lemmas prove what that specification means.

## Where the code does less than it promises

Each of these is proved with its exact condition, and with a concrete input where the condition does not
already name one.

- A zero-length event can be linked past a span that ends exactly where the event sits
  (`TraceNesting.SpanBetweenExactly`, `TraceNesting.ZeroLengthChildCanSkipASpan`).
- Exclusive times count some tick twice on a thread with crossing or identical spans, and only there
  (`ExclusiveTime.Conservation`).
- The extent of a build is not that of its tasks when some start before time zero
  (`WeightedTime.EarliestExactly`, `WeightedTime.LatestExactly`), and a build whose tasks all sit at one instant
  ends in a division by zero (`WeightedTime.SummarizeEntries`, `WeightedTime.ExtentHolds`).
- A changed file that projects match falls to core when each of them excludes itself or a later one
  (`DirtyFiles.OrphanedExactly`, `DirtyFiles.SelfExclusionOrphans`).
- A code span does not read back for empty text, for text with a carriage return or a null, and for text with
  spaces at both ends around something else (`CodeSpan.RoundTripsExactly`, `CodeSpan.EmptySpan`,
  `CodeSpan.CarriageReturnIsLost`, `CodeSpan.NullIsLost`, `CodeSpan.SpacesAreLost`).
- The emission order of kernels shows exactly when two kernels of one name differ
  (`SassNormalForm.EmissionOrderShowsExactly`).
- A comment can be two bytes over its limit, and no more once a header fits
  (`CommentBudget.CommentKeepsLimit`, `CommentBudget.CommentFits`, `CommentBudget.TwoBytesOver`).
- A worker can wait for ever exactly when a generation forks at least as many workers as there are lanes
  (`LaneProtocol.WaitsExactly`, `LaneProtocol.WaitsForEver`). `benchmarks/scripts/search.py:457` asks for as many
  workers as lanes; how many of them the optimiser library forks is not part of this model.

One comment differs from the code: a weighted duration is divided by the number of all tasks running, itself
included, where `ci/ninja_summary.py:89-90` says other tasks (`WeightedTime.ShareIsFair` follows the code).

## Model

| member | source | states |
|---|---|---|
| Ticks.MergedIntervalDuration | ci/compile_time/summarize_events.py:173-188 | the merged duration is the number of integer ticks covered by at least one of the half-open intervals, whatever their order |
| Ticks.SweepSorted | ci/compile_time/summarize_events.py:177-188 | on intervals sorted as tuples the one-block sweep counts every covered tick once |
| Ticks.CloseBlock | ci/compile_time/summarize_events.py:181-183 | a span that starts past the open block shares no tick with what was counted, so closing the block adds exactly the new ticks |
| Ticks.GrowBlock | ci/compile_time/summarize_events.py:184-185 | a span that touches the open block adds only the ticks past the end of that block |
| Ticks.SumAgainstUnion | ci/compile_time/summarize_events.py:173-188 | the sizes of a family of tick sets sum to at least the size of their union, with equality exactly when they are pairwise disjoint |
| TraceNesting.LinkChildEvents | ci/compile_time/summarize_events.py:416-443 | every event of every (pid, tid) thread gains exactly the later events of its own thread whose tightest open container it is, in order, after the children it already had; no other event changes |
| TraceNesting.LinkThread | ci/compile_time/summarize_events.py:421-443 | the stack sweep over one sorted thread appends to every event exactly the children the specification `Parent` gives it, overlapping, identical and zero-length spans included |
| TraceNesting.PopFor | ci/compile_time/summarize_events.py:426-434 | after the two popping loops the stack's top is the latest earlier event that contains the arriving one and still runs, and the stack is empty exactly when there is none |
| TraceNesting.Advance | ci/compile_time/summarize_events.py:423-443 | one step of the sweep keeps on the stack every event that is still the latest open container of some later event |
| TraceNesting.Attach | ci/compile_time/summarize_events.py:438-441 | the arriving event is appended to its parent only, and not at all under an identical span |
| TraceNesting.Pop | ci/compile_time/summarize_events.py:426-434 | an event that does not contain the arriving one, or has ended, may be dropped for good: it is the latest open container of no later event that the arriving one is not open around |
| TraceNesting.TopIsLatestOpen | ci/compile_time/summarize_events.py:426-441 | what the pops leave on top is the latest open container among all earlier events, not only among those on the stack |
| TraceNesting.GroupEvents | ci/compile_time/summarize_events.py:417-419 | events are split by process and thread, each group in reading order, each key once |
| TraceNesting.LinkGroup | ci/compile_time/summarize_events.py:421-443 | linking one thread leaves the threads linked before it and those still to come as they were |
| TraceNesting.ThreadOfIsReady | ci/compile_time/summarize_events.py:423 | the sort hands the sweep each of the thread's events once, earlier starts first and longer spans first among equal starts |
| TraceNesting.ParentIsTightest | ci/compile_time/summarize_events.py:416-443 | a parent strictly contains its child; a span strictly between the two ends exactly where the child, then of length zero, sits |
| TraceNesting.SpanBetweenExactly | ci/compile_time/summarize_events.py:426-441 | the sweep links an event past a span strictly between it and its parent if and only if the event has length zero, some span runs where it sits, and a span that ends there began no earlier than all that run there: a condition on the sorted spans alone |
| TraceNesting.ZeroLengthChildCanSkipASpan | ci/compile_time/summarize_events.py:426-427 | a concrete trace in which a span does lie strictly between a zero-length child and its parent |
| TraceNesting.ParentlessExactly | ci/compile_time/summarize_events.py:426-441 | a positive-length event has a parent if and only if some event strictly contains it and no identical span sorts before it |
| TraceNesting.JoinsOneList | ci/compile_time/summarize_events.py:438-441 | an event is in the children list of its parent, once, and in no other list |
| ExclusiveTime.Conservation | ci/compile_time/summarize_events.py:416-443 | the exclusive times of one thread sum to at least the ticks it covers, and to exactly those ticks if and only if spans that share a tick are distinct and one contains the other |
| ExclusiveTime.ThreadConservation | ci/compile_time/summarize_events.py:607-622 | the same for the linked event objects `LinkChildEvents` leaves behind |
| ExclusiveTime.InnermostIsCharged | ci/compile_time/summarize_events.py:607-622 | on a nested thread a tick is charged to an event if and only if the event runs then and every other event running then contains it |
| ExclusiveTime.ChildHolding | ci/compile_time/summarize_events.py:416-443 | on a nested thread an event inside which a later one runs has a child running at that tick |
| ExclusiveTime.CrossingChargesTwice | ci/compile_time/summarize_events.py:430-434 | two spans that cross make some tick be charged to two events |
| ExclusiveTime.TwinsChargeTwice | ci/compile_time/summarize_events.py:438-441 | two identical spans make their first tick be charged to two events |
| ExclusiveTime.ExclusiveIsOwn | ci/compile_time/summarize_events.py:617-622 | inclusive time less the merged children is the number of ticks no child covers, so the clamp at zero never acts |
| ExclusiveTime.EventExclusiveUs | ci/compile_time/summarize_events.py:617-622 | the computed exclusive time is the span less the ticks covered by the children in scope, never negative; for children inside the event it is the number of ticks that no child covers in scope "all", and no matching child in scope "same-filter" |
| ExclusiveTime.LinkedScopesAreOrdered | ci/compile_time/summarize_events.py:607-622 | for every event of every linked trace and every filter 0 <= exclusive("all") <= exclusive("same-filter") <= inclusive, and the clamp at zero never acts |
| TraceStats.AddEventStats | ci/compile_time/summarize_events.py:666-691 | the entry of one identity becomes the merge of what it was, or of zero, with one event; no other entry changes |
| TraceStats.EventStats.MergeFrom | ci/compile_time/summarize_events.py:787-794 | the target object holds the merge of both old values and the source is not changed |
| TraceStats.MergeSideStats | ci/compile_time/summarize_events.py:1392-1401 | the target dictionary reads afterwards as the entry-wise merge of both, although it adopts the source's objects for new identities |
| TraceStats.CollectTraceStats | ci/compile_time/summarize_events.py:625-645 | the dictionary after the loop is the fold of the reported events, each with its inclusive time and the exclusive time its linked children leave |
| TraceStats.MergingIsCollecting | ci/compile_time/summarize_events.py:1392-1401 | merging what a worker collected alone leaves exactly what collecting its events straight into the target would have left |
| TraceFigures.CollectedExactly | ci/compile_time/summarize_events.py:625-691 | an identity is in the table if and only if an event is reported under it; its entry holds the number of those events, the sums and maxima of their inclusive and exclusive times, their trace and exactly their root units |
| TraceConservation.ReportConservesTime | ci/compile_time/summarize_events.py:607-645 | in a report in scope "all" that lists every event of a linked trace, the exclusive times over all identities sum to at least the ticks covered, added over the threads, and to exactly those if and only if every thread is nested |
| TraceConservation.ReportOnTrace | ci/compile_time/summarize_events.py:648-663 | the same for the statistics a trace ends with after its events are linked and collected |
| TraceStats.MergeCommutes | ci/compile_time/summarize_events.py:787-794 | merging statistics is commutative and associative |
| TraceStats.MergeMapsLaws | ci/compile_time/summarize_events.py:1392-1415 | so is merging dictionaries, for any commutative and associative merge of their entries |
| ComparisonTables.ComparisonStats.MergeFrom | ci/compile_time/summarize_events.py:1413-1415 | both sides and the matched traces of the target object hold the merge of both old values; the source is not changed |
| ComparisonTables.MergeComparisonSideStats | ci/compile_time/summarize_events.py:797-815 | the dictionary reads afterwards as with every entry of one side merged into its identity, an absent identity starting from zero on both sides; no object is shared |
| ComparisonTables.MergeComparisonMaps | ci/compile_time/summarize_events.py:1404-1415 | the target dictionary reads afterwards as the entry-wise merge of both, although it adopts the source's objects for new identities |
| TraceReports.MergeTraceResult | ci/compile_time/summarize_events.py:1418-1432 | merging one slice of a result updates the three dictionaries of the aggregate in place to the merge of both, and none of their objects is shared afterwards; `FoldGathers` says what merging comes to |
| TraceReports.SummarizeTraceTasks | ci/compile_time/summarize_events.py:1541-1549 | the aggregate, updated in place and adopted from result after result, holds an identity in each of its three dictionaries if and only if some result does; its counts and totals are the sums over the results, its maxima the largest of them, its trace, root and matched sets the unions, on both sides of a comparison |
| TraceReports.FoldGathers | ci/compile_time/summarize_events.py:1392-1432 | the same of the values: what folding the merge over any list of results leaves, stated over that list alone |
| TraceReports.MergeResultLaws | ci/compile_time/summarize_events.py:1418-1432 | merging a result into an aggregate is commutative and associative on both sides and on the comparison |
| TraceReports.FoldForgetsOrder | ci/compile_time/summarize_events.py:1541-1549 | folding a commutative and associative operation gives one result for all orders of the same results |
| TraceReports.RankIsTotalOrder | ci/compile_time/summarize_events.py:898-906 | metric, name and key order rows totally and without ties between different identities |
| TraceReports.SmallestAreRanked | ci/compile_time/summarize_events.py:889-906 | the rows reported are rows, in rank order, and as many as asked for or there are |
| TraceReports.SmallestAreFirst | ci/compile_time/summarize_events.py:898-906 | no row left out ranks before one that is reported |
| TraceReports.RowsGoDown | ci/compile_time/summarize_events.py:898-906 | reported rows go down by metric, and up by name and then key among equal ones, as text compares |
| TraceReports.OmittedAreSmaller | ci/compile_time/summarize_events.py:898-906 | a row left out has no larger metric than any reported one, and is left out only of a full report |
| TraceReports.RowsForgetOrder | ci/compile_time/summarize_events.py:889-906 | ranked rows are the same whatever order the dictionary was filled in |
| TraceReports.CompletionOrderIsInvisible | ci/compile_time/summarize_events.py:1541-1549 | for every permutation of the workers' results the aggregates are equal and so are the rows ranked from either side |
| TraceComparison.ComparisonPairStats | ci/compile_time/summarize_events.py:839-886 | on the linked events of two traces it builds, of new objects that nobody shares, the dictionary of both sides of every common identity; `ComparisonFigures.ComparedExactly` says what it holds |
| ComparisonFigures.ComparedExactly | ci/compile_time/summarize_events.py:740-886 | an identity is compared if and only if both traces report an event under it; each side then holds the number, sums, maxima, trace and roots of exactly those events, the exclusive time of an event being the number of its ticks that no child covers whose general identity occurs among the events of both traces, in scope "same-filter" among the matching ones and for matching children only |
| ComparisonFigures.CompareTraces | ci/compile_time/summarize_events.py:1353-1389 | the same for two traces as read, after their events are linked and compared on the mutable objects |
| ComparisonFigures.ReportedExactly | ci/compile_time/summarize_events.py:607-691 | the report on one trace likewise: exclusive time is the number of ticks that no child in scope covers |
| ComparisonFigures.MetricExactly | ci/compile_time/summarize_events.py:694-733 | the figure rows are ranked by is the sum of the events' inclusive or exclusive times, that sum over the number of events or of root units, or the largest time |
| TraceComparison.PairStatsSwap | ci/compile_time/summarize_events.py:839-886 | exchanging the two traces exchanges the two sides of every identity |
| TraceComparison.NarrowerScopeAddsTime | ci/compile_time/summarize_events.py:756-784 | subtracting fewer children never gives an event less exclusive time |
| TraceComparison.ComparisonAgainstReports | ci/compile_time/summarize_events.py:740-886 | in either scope a comparison lists exactly the identities both one-sided reports list, and on each side counts the same events and inclusive times as the report on that trace and never less exclusive time, in total or at most |
| TraceComparison.ComparisonRows | ci/compile_time/summarize_events.py:1044-1093 | the loop reports the entries over the threshold, ranked and cut to the requested number |
| TraceComparison.CandidateComplete | ci/compile_time/summarize_events.py:1056-1079 | every entry whose total moved past the threshold has a row |
| ComparisonFigures.RowsTellOfEvents | ci/compile_time/summarize_events.py:1044-1093 | every row of a comparison gives the sums of its identity's events in both traces and moved by their difference, in the wanted direction and past the threshold; its metrics are those of the events |
| ComparisonFigures.OmittedMovedLess | ci/compile_time/summarize_events.py:1044-1093 | an identity that moved past the threshold but has no row moved no further than any that has one, and the report is full |
| TraceComparison.SelfComparisonHasNoRows | ci/compile_time/summarize_events.py:839-886 | comparing a trace with itself reports no row, in either direction, if and only if the threshold is not negative, no rows are asked for, or no event is reported at all |
| TraceComparison.ReportsSwap | ci/compile_time/summarize_events.py:1044-1093 | exchanging baseline and current turns the "worse" report into the "better" report row for row, ranking and cut included, in whatever order the two dictionaries list their entries |
| TraceComparison.InBothDirections | ci/compile_time/summarize_events.py:1056-1079 | an identity is over the threshold in both directions if and only if its total moved by more than the threshold and less than minus the threshold |
| TraceComparison.ReportsAreDisjoint | ci/compile_time/summarize_events.py:1044-1093 | with a threshold of at least zero no identity is in both reports |
| TraceComparison.ComparisonForgetsOrder | ci/compile_time/summarize_events.py:1044-1093 | equal dictionaries give the same comparison report whatever order they were filled in |
| TraceComparison.CompletionOrderIsInvisibleInComparisons | ci/compile_time/summarize_events.py:1541-1549 | for every permutation of the workers' results the comparison report is the same |
| MangledNames.NestedScopeCandidates | ci/compile_time/summarize_events.py:265-293 | whatever further characters count as digits, the loops end on every string; a string is a candidate if and only if the symbol is mangled and, behind an N and all K, V, O and R that follow, whole length-prefixed names stand whose scope prefix it is |
| MangledNames.CandidatesExactly | ci/compile_time/summarize_events.py:265-293 | the same of the recursive reading, which also fixes the order of the list |
| MangledNames.ScanExactly | ci/compile_time/summarize_events.py:275-291 | one scan gives exactly the prefixes of the names spelled out from its start |
| MangledNames.TakeComponent | ci/compile_time/summarize_events.py:277-287 | a component is taken whole; a length that `int` refuses or that runs past the end gives none |
| MangledNames.ScanComponents | ci/compile_time/summarize_events.py:275-291 | the component loop adds one scope prefix for each whole component and stops at the first that is cut short |
| MangledNames.ScanFindsPrefixes | ci/compile_time/summarize_events.py:275-291 | scanning encoded source names gives the prefix of every initial part of the scope path |
| MangledNames.EncodedScopesAreFound | ci/compile_time/summarize_events.py:265-293 | round trip: for identifiers that do not start with a digit, encoded as source names behind "_ZN" and any qualifiers and followed by anything, every scope prefix "a::", "a::b::" is among the candidates |
| MangledNames.NumberOfDigits | ci/compile_time/summarize_events.py:280-281 | reading back the decimal digits of a length gives the length |
| WeightedTime.SummarizeEntries | ci/ninja_summary.py:212-328 | it fails on an empty list, at a task that ends before it starts, or at the last report when the scanned extent has length zero, and exactly then; in the last case and otherwise each task is given its fair share, at most its own duration, and the shares sum exactly to the length of the union of the task intervals, at most that of any extent that covers them |
| WeightedTime.Sweep | ci/ninja_summary.py:247-270 | a stop event looks up a missing task only if that task ends before it starts; otherwise every task gets its weighted duration |
| WeightedTime.SweepOne | ci/ninja_summary.py:252-269 | one event keeps the running set, the accumulated weighted time and the weights already given equal to their specification |
| WeightedTime.Handle | ci/ninja_summary.py:259-268 | a start records the accumulated time, a stop sets the difference and removes the task; the weights of other tasks are kept |
| WeightedTime.Extent | ci/ninja_summary.py:223-234 | the loop computes the two scans below |
| WeightedTime.EarliestExactly | ci/ninja_summary.py:223-228 | the scan finds the earliest start if and only if no task starts before time zero or none starts before the last one |
| WeightedTime.LatestExactly | ci/ninja_summary.py:224-230 | the scan finds the latest end if and only if some task ends at time zero or later, and it never lies before an end |
| WeightedTime.ExtentHolds | ci/ninja_summary.py:223-234 | from time zero on the scanned extent covers all tasks, and its length is zero if and only if they all sit at one instant |
| WeightedTime.RunningIsCover | ci/ninja_summary.py:244-269 | between two consecutive different event times the tasks in the running set are exactly those whose interval covers that whole cell |
| WeightedTime.ShareIsFair | ci/ninja_summary.py:252-267 | the difference of accumulated times a task gets is, cell by cell, the cell length divided by the number of tasks covering the cell |
| WeightedTime.StuckOnlyBackwards | ci/ninja_summary.py:264-266 | a stop event finds its task not running only if the task ends before it starts |
| WeightedTime.NoneLeft | ci/ninja_summary.py:268-270 | after the last event nothing is running |
| WeightedTime.TimelineIsTimeline | ci/ninja_summary.py:232-238 | the sorted list holds each task's start and stop once, in time order and starts before stops at one time |
| WeightedTime.SharesConserveTime | ci/ninja_summary.py:86-101 | the fair shares of all tasks sum to the busy time |
| WeightedTime.ShareBound | ci/ninja_summary.py:86-101 | a fair share is never negative and never more than the task's own duration |
| WeightedTime.BusyBound | ci/ninja_summary.py:86-101 | the busy time never exceeds the length of the grid |
| GridMeasure.GridsAgree | ci/ninja_summary.py:86-101 | busy time and fair shares are the same on any two grids that hold all task ends, so they measure the tasks and not the sweep |
| GridMeasure.SweepGridHoldsEnds | ci/ninja_summary.py:232-238 | the times of the sorted events are such a grid |
| RebuildGraph.Visit | ci/inspect_changes.py:238-246 | the search finds exactly the projects reachable over full and lite dependencies, the start aside, on cyclic graphs too |
| RebuildGraph.TransitiveOf | ci/inspect_changes.py:237-257 | the transitive dependencies are the listed projects that are reachable but not direct dependencies |
| RebuildGraph.Complete | ci/inspect_changes.py:147-159 | the loaded configuration keeps the direct dependencies and gets exactly the transitive ones |
| RebuildGraph.ClosedHolds | ci/inspect_changes.py:241-246 | a set closed under dependencies that holds a project holds all it reaches |
| RebuildStatus.BuildReverse | ci/inspect_changes.py:391-403 | a project is listed under a dependency with the full flag iff it names it as full, and without iff as lite or transitive |
| RebuildStatus.Propagate | ci/inspect_changes.py:406-449 | the search ends; full is exactly the changed projects and those naming one as a full dependency; full and lite together are exactly the projects that changed or reach a changed one; the two are disjoint |
| RebuildStatus.Expand | ci/inspect_changes.py:422-447 | expanding one queue item keeps the meaning of the sets and either changes nothing or lowers the measure on unclassified and lite projects |
| RebuildStatus.Relax | ci/inspect_changes.py:423-447 | visiting one dependent classifies it, promotes lite to full at depth zero over a full edge, and never demotes |
| RebuildStatus.Settled | ci/inspect_changes.py:406-449 | whatever order the queue was served in, an empty queue leaves only one possible pair of sets |
| RebuildStatus.DetermineRebuildSets | ci/inspect_changes.py:533-572 | with core clean a project is Dirty iff it changed or names a changed project as full dependency, Clean iff neither it nor anything it reaches changed, Dirty Deps otherwise; with core dirty all are Dirty |
| RebuildStatus.StatusesAreExact | ci/inspect_changes.py:563-572 | membership in the two sets says exactly whether a project must be rebuilt in full or is unaffected |
| RebuildStatus.InspectChanges | ci/inspect_changes.py:642-685 | the same from the configured direct dependencies on, through loading, reverse graph and propagation |
| ChangeInspection.InspectFiles | ci/inspect_changes.py:642-685 | the same from the changed files on: every status is determined by which files each project still holds after the exclusion pass and by the direct dependencies |
| ChangeInspection.CoreTouchedExactly | ci/inspect_changes.py:312-320 | core has files exactly when some changed file is given up by every project that matches it |
| DirtyFiles.BuildProjectDirtyMap | ci/inspect_changes.py:282-320 | each project's bucket lists, in the original order, the files it holds after the order-dependent exclusion pass; core lists those nobody holds |
| DirtyFiles.ExclusionPass | ci/inspect_changes.py:295-310 | handling the projects one by one leaves in every bucket exactly the files still held |
| DirtyFiles.OrphanedExactly | ci/inspect_changes.py:295-310 | a file ends in no project if and only if every project whose patterns match it excludes itself or a later project that matches it too |
| DirtyFiles.HoldersExactly | ci/inspect_changes.py:295-310 | who holds a file in the end: exactly the projects that match it, exclude no earlier project that holds it in the end, and neither themselves nor a later project that matches it |
| DirtyFiles.SelfExclusionOrphans | ci/inspect_changes.py:295-310 | a concrete orphan: one project that matches every file and excludes itself |
| DirtyFiles.NoSelfExclusionNoOrphans | ci/inspect_changes.py:295-320 | if no project excludes itself, core gets exactly the files no project's patterns match |
| DirtyFiles.EveryFileHasABucket | ci/inspect_changes.py:312-320 | every changed file is in some bucket and core shares no file with another bucket |
| DirtyFiles.ExcludeStep | ci/inspect_changes.py:296-310 | one project gives up exactly the files that the projects it excludes hold at that moment |
| CoopLayout.OwnerHoldsValue | docs/_static/coop-movement.js:16-21 | for all positive sizes and each layout, the owner of a tile value is a thread and slot of the tile, and that slot holds that value |
| CoopLayout.ValueHasOwner | docs/_static/coop-load.js:52-57 | every thread and slot of the tile holds a tile value and owns it: with the above, a bijection |
| CoopLayout.ValuesFollow | docs/_static/coop-movement.js:16-21 | which layout is which: successive values are in successive slots of a thread when blocked, in neighbouring threads when striped, in neighbouring threads of one warp when warp-striped, and each run begins where the last one ends |
| CoopLayout.RegisterHoldsValue | docs/_static/coop-movement.js:23-26 | register numbers stay in the tile and name the value they hold |
| CoopLayout.RegisterIsFilled | docs/_static/coop-movement.js:23-26 | every register of the tile holds a value, and that value's register is this one |
| CoopLayout.OwnerInWarp | docs/_static/coop-movement.js:16-21 | blocked and warp-striped ownership put a value into the same warp, the value's own |
| CoopLayout.BuildStore | docs/_static/coop-movement.js:88-100 | the phases begin with all warps at the input and end with all at the writers and then in memory; no warp ever goes back, and in a timesliced exchange warp w is in scratch in round w and in no other phase |
| CoopLayout.PhaseHasNoCollision | docs/_static/coop-movement.js:72-86 | in no phase do two values share a cell or a value leave its row, the one-warp scratch included |
| CoopPhases.StoreShows | docs/_static/coop-movement.js:72-100 | every phase of a store shows every value in a cell that holds it: in the registers after the turns taken so far, in scratch as the warp whose turn it is has filled it, in the memory written at the end |
| CoopLayout.BuildScene | docs/_static/coop-load.js:190-202 | the phases of a load begin with all warps in memory and then at the registers read into, and end at the result; no warp ever goes back, and in a timesliced exchange warp w is in scratch in round w and in no other phase |
| CoopLayout.LoadPhaseHasNoCollision | docs/_static/coop-load.js:152-160 | in no phase of a load do two values share a cell or a value leave its row, the one-warp scratch included |
| CoopPhases.LoadShows | docs/_static/coop-load.js:152-202 | every phase of a load shows every value in a cell that holds what memory has at its address |
| CoopLayout.LoadInOrder | docs/_static/coop-load.js:190-202 | the result register of value v receives memory address v, with either scratch or, for any pair of layouts, the full-size one |
| CoopLayout.RoundsSoFar | docs/_static/coop-movement.js:89-93 | after n turns the first n warps hold their new layout and the others still their old one |
| CoopLayout.TimeslicedIsWhole | docs/_static/coop-load.js:194-200 | taking turns with one warp of scratch leaves the same registers as a full-size scratch |
| CoopLayout.MemoryInOrder | docs/_static/coop-movement.js:97-104 | address v receives the payload's value v, with either scratch or, for any pair of layouts, the full-size one |
| BuildLanes.Build | benchmarks/scripts/search.py:104-118 | lanes go to the GPUs in turn, each round under the next slot, and every lane works and locks on its own GPU; on distinct GPUs any prefix loads every two within one lane of each other and each gets as many lanes as asked for |
| BuildLanes.DirectoriesDistinctExactly | benchmarks/scripts/search.py:104-118 | no two lanes share a build directory if and only if the GPU names are distinct |
| BuildLanes.Balanced | benchmarks/scripts/search.py:104-118 | among any prefix of lanes so dealt the numbers whose own GPU is one or the other differ by at most one |
| BuildLanes.FullRounds | benchmarks/scripts/search.py:104-118 | every GPU gets exactly as many lanes as asked for |
| LaneProtocol.DrainAndRefill | benchmarks/scripts/search.py:212-218 | whatever the queue held, it then holds every lane once but the parent's |
| LaneProtocol.LanesStayApart | benchmarks/scripts/search.py:190-203 | every step keeps queued lanes distinct and out of every cache, and one lane cached under one process only, a fork that copies the cache included |
| LaneProtocol.LocksStayHeld | benchmarks/scripts/search.py:221-229 | every step keeps the lock table equal to the processes in the locked section, deaths included |
| LaneProtocol.StepInv | benchmarks/scripts/search.py:186-229 | both together are kept by every step |
| LaneProtocol.EveryRunIsSafe | benchmarks/scripts/search.py:186-229 | in every state of every run on lanes of distinct GPUs, live processes hold different lanes and build directories and at most one process per GPU is in its locked section |
| LaneProtocol.AcquiresExactly | benchmarks/scripts/search.py:221-229 | in every state of every run a process may enter its locked section if and only if it waits to and no live process is in the section of its GPU |
| LaneProtocol.DeathFreesLock | benchmarks/scripts/search.py:221-229 | a process may die in its locked section, and a process that waits for that GPU may then enter its own |
| LaneProtocol.LaneKept | benchmarks/scripts/search.py:186-203 | a process keeps its lane for as long as it lives |
| LaneProtocol.ForkedChildDraws | benchmarks/scripts/search.py:190-203 | any live process may fork, and the child has to draw a lane unless the inherited cache was filled under its own process number |
| LaneProtocol.GenerationStarts | benchmarks/scripts/search.py:206-218 | once only the idle parent is left a generation may start, with every other lane queued once |
| LaneProtocol.EvaluationReturns | benchmarks/scripts/search.py:221-229 | an evaluation, finished or given up after the build, leaves the state as it was |
| LaneProtocol.BothBenchmark | benchmarks/scripts/search.py:186-229 | on any two lanes of different GPUs some run has the parent and a worker, forked with the parent's lane in its cache, in their locked sections at once |
| LaneProtocol.ClaimNeverWaits | benchmarks/scripts/search.py:190-203 | with at most one worker fewer than lanes in a generation, a worker that must draw a lane finds one in the queue |
| LaneProtocol.ClaimsExactly | benchmarks/scripts/search.py:190-203 | an idle process gets a lane for the asking if and only if it does not have to wait for one, and a process that has a lane gets that one again |
| LaneProtocol.WaitsExactly | benchmarks/scripts/search.py:190-218 | for any lanes and any number of workers, some run of a generation that forks that many leaves a worker asking for a lane while none is queued if and only if there are at least as many workers as lanes |
| LaneProtocol.WaitsForEver | benchmarks/scripts/search.py:190-218 | in every run such a worker stays so until it dies, whatever the other processes do |
| LaneProtocol.OneWorkerTooManyWaits | benchmarks/scripts/search.py:190-203 | a concrete run of this kind with one lane and one worker |
| LowlandModes.ExtractPeaks | benchmarks/scripts/analyze.py:752-757 | the peaks are exactly the bins higher than both neighbours, increasing |
| LowlandModes.NarrowLowland | benchmarks/scripts/analyze.py:784-790 | the lowland is narrowed to the outermost bins not above the lower peak, whose height is at most that of both peaks and equal to one |
| LowlandModes.NarrowingIsUnique | benchmarks/scripts/analyze.py:784-790 | the narrowed bounds depend on heights and the two peaks alone |
| LowlandModes.ExtractModes | benchmarks/scripts/analyze.py:801-817 | for any verdicts of the lowland test: the peaks fall into consecutive segments, each ended by the first peak across a lowland from one it faces and by none before, and the modes are the leftmost tallest peak of each, in order |
| LowlandModes.Arrive | benchmarks/scripts/analyze.py:802-814 | one arriving peak pops the lower ones, closes the segment exactly when a lowland lies before a lower visible peak or the nearest taller one, and is pushed |
| LowlandModes.SegmentsUnique | benchmarks/scripts/analyze.py:801-817 | segments and modes that meet that description are unique |
| LowlandModes.GoesOn | benchmarks/scripts/analyze.py:804-812 | if no test made while popping finds a lowland, the segment does not end at the arriving peak |
| LowlandModes.StackNeverRises | benchmarks/scripts/analyze.py:804-814 | the stack, which holds the peaks of the segment with no taller one behind them, never rises in height |
| LowlandModes.BottomIsTallest | benchmarks/scripts/analyze.py:805-816 | the bottom of the stack is the leftmost tallest peak of the open segment |
| LowlandModes.ModesIncrease | benchmarks/scripts/analyze.py:801-817 | on increasing peaks the modes are a nonempty, strictly increasing selection of them |
| LowlandModes.ModesUnique | benchmarks/scripts/analyze.py:801-817 | a segment has only one leftmost tallest peak |
| SassNormalForm.Trim | ci/sass/compare_sass.py:193-201 | the loop removes exactly the maximal run of NOPs at the end |
| SassNormalForm.PaddingIsTrimmed | ci/sass/compare_sass.py:191-201 | further padding does not change the trimmed code |
| SassNormalForm.FindBase | ci/sass/compare_sass.py:205-210 | the nested loops find the smallest offset of every bank in use, and no other bank |
| SassNormalForm.RebaseIsCanonical | ci/sass/compare_sass.py:203-222 | bodies that agree apart from constant offsets rebase to the same code if and only if each bank is moved by one uniform shift |
| SassNormalForm.RebaseIsIdempotent | ci/sass/compare_sass.py:203-222 | rebasing a rebased body changes nothing |
| SassNormalForm.Normalize | ci/sass/compare_sass.py:193-222 | a kernel without instructions is refused; of any other the code before the padding is shown, each branch by its distance and each constant by how far it is from the least offset its bank is used with |
| SassNormalForm.NormalShows | ci/sass/compare_sass.py:172-222 | the same of every normal form, on the instructions as disassembled |
| SassNormalForm.NormalFormsEqualExactly | ci/sass/compare_sass.py:172-222 | two kernels have one normal form if and only if, before the padding, they have equally many instructions with the same text, branches of the same distance and constants of the same banks, each bank moved by one uniform shift |
| SassNormalForm.NormalIsUnique | ci/sass/compare_sass.py:193-222 | the normal form is a function of the instructions |
| SassNormalForm.KernelsEqualExactly | ci/sass/compare_sass.py:172-222 | two kernels that agree apart from constant offsets compare equal if and only if, in the code before the padding, each bank is moved by one uniform shift |
| SassNormalForm.RelocationIsInvisible | ci/sass/compare_sass.py:172-181 | moving addresses and branch targets together leaves the instruction text as it was |
| SassNormalForm.MovedAndPadded | ci/sass/compare_sass.py:172-222 | relocating a kernel and adding trailing NOPs leaves its normal form |
| SassNormalForm.EmissionOrderIsInvisible | ci/sass/compare_sass.py:129-140 | when kernels of one name are equal, the order of emission does not show in the listing |
| SassNormalForm.EmissionOrderShowsExactly | ci/sass/compare_sass.py:129-140 | every order of emission gives the same listing if and only if kernels of one name are equal |
| SassNormalForm.LinesDetermineKernels | ci/sass/compare_sass.py:118-119 | different lists of kernels print different lines |
| SassNormalForm.ListingShows | ci/sass/compare_sass.py:129-140 | the listing is its kernels, whole, in ascending order of their names and those of one name as emitted |
| SassNormalForm.SameNameShowsOrder | ci/sass/compare_sass.py:129-140 | two kernels of one name show their order of emission if and only if they differ |
| CodeSpan.MdCodeSpan | ci/compile_time/render_pr_comment.py:28-41 | the span is the one-line text, padded when it touches a backtick, between delimiters one longer than its longest backtick run |
| CodeSpan.MaxBacktickRun | ci/compile_time/render_pr_comment.py:30-37 | the counter loop finds the length of the longest run |
| CodeSpan.CloseIsFound | ci/compile_time/render_pr_comment.py:38-41 | no run inside closes the span; the closing delimiter is found at the end |
| CodeSpan.StrippingUndoesPadding | ci/compile_time/render_pr_comment.py:39-40 | stripping gives back the text after padding if and only if the text does not both begin and end with a space around something else |
| CodeSpan.RoundTripsExactly | ci/compile_time/render_pr_comment.py:28-41 | read by the rules of section 6.1 of CommonMark 0.31.2, with its line endings and null characters (sections 2.1 and 2.3), the span gives the text with line feeds as spaces if and only if that text is nonempty, holds no carriage return and no null, and does not both begin and end with a space around something else |
| CodeSpan.ReadsBackItself | ci/compile_time/render_pr_comment.py:28-41 | so read the span gives the very text that was printed if and only if that is nonempty, has no line feed, carriage return or null, and does not both begin and end with a space around something else |
| CodeSpan.CarriageReturnIsLost | ci/compile_time/render_pr_comment.py:29 | a concrete loss: a carriage return between two letters is read back as a space |
| CodeSpan.NullIsLost | ci/compile_time/render_pr_comment.py:29 | a concrete loss: a null between two letters is read back as the replacement character |
| CodeSpan.SpacesAreLost | ci/compile_time/render_pr_comment.py:38-41 | a concrete loss: " a " is read back as "a" |
| CodeSpan.EmptySpan | ci/compile_time/render_pr_comment.py:38-41 | the span of an empty text is not read as a code span |
| DeviceIterator.CudaIterator.constructor | thrust/scripts/gdb-pretty-printers.py:36-51 | the buffer is the largest that takes at most one megabyte or a single element, or the size of the vector if that is less, and the first part is copied |
| DeviceIterator.CudaIterator.UpdateBuffer | thrust/scripts/gdb-pretty-printers.py:53-70 | unless iteration is over, the buffer then holds the current element; the position does not move |
| DeviceIterator.CudaIterator.Next | thrust/scripts/gdb-pretty-printers.py:78-88 | yields the index and the device's element at it, exactly while elements remain |
| DeviceIterator.HostIterator.Next | thrust/scripts/gdb-pretty-printers.py:26-33 | yields the index and the element at it, exactly while elements remain |
| DeviceIterator.DrainCuda | thrust/scripts/gdb-pretty-printers.py:35-88 | for every size and element size a complete buffered iteration yields every index with its element in order, copies each element exactly once, never past the size, and every copy but the last fills the largest buffer allowed |
| DeviceIterator.DrainHost | thrust/scripts/gdb-pretty-printers.py:17-33 | direct iteration yields the same sequence |
| DeviceIterator.ChainedCopiesOnce | thrust/scripts/gdb-pretty-printers.py:58-70 | copies that follow each other cover each element of their range once |
| CommentBudget.BestArch | ci/sass/render_report.py:287-296 | the architecture shown is the first of lowest rank among those with a diff |
| CommentBudget.Choose | ci/sass/render_report.py:283-296 | one entry per target with a diff, in order, for that architecture |
| CommentBudget.RenderDiffs | ci/sass/render_report.py:298-320 | the blocks shown are a prefix of the stable rank order, as long as the budget and the limit of ten allow and no shorter |
| CommentBudget.ShownInStableOrder | ci/sass/render_report.py:301 | the order has no entry behind one of higher rank, and ties keep the order of the targets |
| CommentBudget.Render | ci/sass/render_report.py:422-427 | the comment is the fixed lines, such a section within what the fixed lines leave of the budget, and an empty line |
| CommentBudget.CommentShows | ci/sass/render_report.py:298-320 | a comment with entries says how many blocks of how many it shows and shows these, whole and in order of rank, between the fixed lines and an empty line; no dropped entry has a lower rank |
| CommentBudget.CommentFillsLimit | ci/sass/render_report.py:298-317 | as many blocks are shown as there are, up to ten, while fixed lines, longest header and blocks take at most 60,000 bytes |
| CommentBudget.BytesAreEncoded | ci/sass/render_report.py:309 | the bytes counted are those of the UTF-8 encoding, which `Utf8.DecodesBack` shows to give the text back |
| CommentBudget.JoinedLines | ci/sass/render_report.py:427 | the joined lines are the lines of the text |
| CommentBudget.CommentFits | ci/sass/render_report.py:422-427 | a comment is at most 60,002 bytes if and only if the fixed lines and a header naming no block take at most 60,000; when no target has a diff, if and only if the fixed lines take at most 60,001 |
| CommentBudget.CommentSize | ci/sass/render_report.py:311-320 | the exact number of bytes of a comment with a given number of blocks |
| CommentBudget.HeaderShrinks | ci/sass/render_report.py:303-320 | rewriting the header to fewer blocks never lengthens it |
| CommentBudget.CommentKeepsLimit | ci/sass/render_report.py:422-427 | every comment has the size that its fixed lines and targets determine, and keeps the limit of 60,000 bytes if and only if that size does |
| CommentBudget.ShownIsDetermined | ci/sass/render_report.py:311-317 | the budget determines how many blocks are shown: a shorter prefix leaves room for its next block |
| CommentBudget.CommentIsDetermined | ci/sass/render_report.py:422-427 | fixed lines and targets determine the entries, the number of blocks shown and the comment |
| CommentBudget.TwoBytesOver | ci/sass/render_report.py:37-39 | a concrete comment of 60,002 bytes: the limit of 60,000 is not kept to the byte |

## Left out

- Files, git, subprocesses, JSON, YAML, CSV, command lines and printing; parsed inputs are datatypes.
- Floating point: times, heights, averages and weighted durations are `real`, microseconds `int`. The epsilon and the warnings of `ci/ninja_summary.py:96-101, 272-280` and the printed seconds are not modelled.
- Regular expressions and paths: include and exclude patterns, report and scope filters and identities (with `normalize_detail`) are arbitrary functions. Instructions of `SassNormalForm` are already split into text, constant and branch parts, which `_BRANCH_RE` and `_CONSTANT_RE` do in the source.
- Trace events have durations that are not negative, as complete events do; `iter_duration_events` and the reading of traces are not modelled.
- TraceReports.MergeTraceResult: one slice of an aggregate; the dictionary of slices and the error for an unknown side are not modelled.
- TraceComparison.ComparisonPairStats: the reports' identities are functions of what an event says about itself; the two repository roots are inside them.
- TraceReports.SummarizeTraceTasks: the process pool is an arbitrary order of results that share no object; failures of workers are not modelled.
- `ReadTargets`, `GetExtension` and the listing and grouping of steps in `ci/ninja_summary.py:279-318`.
- RebuildStatus.InspectChanges: `collect_dirty_files`, ignored files, `compute_outputs` and the checks of the configuration file.
- CoopLayout.BuildStore: any number of warps, threads per warp and items takes the place of the two warps of four shown; labels, colours, geometry and animation are not modelled.
- BuildLanes.Build: directories and lock files are structured names, not path strings.
- LaneProtocol.EveryRunIsSafe: assumes a first-in first-out queue, an exclusive file lock, and that all workers are gone before the next generation starts. A worker and the evaluation it spawns are one process, so an evaluation that outlives its killed worker is not modelled; neither are build failures and the abort flag, which only end an evaluation early.
- LaneProtocol.ClaimNeverWaits: how many workers the optimiser library forks in a generation is an assumption; that library is not part of this model.
- `pool_cull_sizes`, the search space and the scoring in `benchmarks/scripts/search.py`.
- LowlandModes.ExtractModes: the verdict of the lowland test is an arbitrary function of the candidate and the two peaks (`NarrowLowland` is its scan); its areas, the quantile histogram and `get_filenames_map` are not modelled.
- `_kernel_at`, `_annotate_hunk_headers` and the comparison of targets in `ci/sass/compare_sass.py`.
- MangledNames.NestedScopeCandidates: the interpreter's limit on the number of digits `int` accepts is not modelled. Neither are `strip_angle_arguments` and `symbol_name_prefix`.
- DeviceIterator.DrainCuda: memory is a sequence and copies always succeed; freeing the buffer and the error for a failed copy are not modelled.
- CommentBudget.Render: the headline, the table of changed targets and the text of a block are given lines; `CommentFits` takes blocks to be nonempty, as `_render_diff_block` makes them. The case without changed targets, which prints no section and no closing line, is left out.
- CodeSpan.RoundTripsExactly: the span is read alone, not inside a paragraph or a table cell.
- The C++ headers of the repository: their contracts would rest on documentation and not on code.
