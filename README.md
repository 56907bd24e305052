# A verified model of the PR-FPGA query scheduler

The system runs database queries (filters, joins, sorts, aggregations and arithmetic) on an FPGA. The FPGA fabric is split into columns, and partial-reconfiguration (PR) bitstreams are loaded into those columns. A query is a dataflow graph of operation nodes. The scheduler decides which nodes run together in which hardware run, and which bitstream variant occupies which column range. It splits resource-elastic operations such as merge sort over several runs. It also decides what has to be reconfigured between one run and the next.

This project models that scheduling core in Dafny and proves properties of the model. Both forms of the scheduler are covered:

- **The Python reference scheduler** (`schedule.py`):
  - placement heuristics and their composition (`Selection`);
  - the column-fit search and the minimum start column (`ColumnFit`);
  - capacity rules, sorted-sequence generation and bitstream filtering (`CapacityRules`);
  - graph and table updates after a placement (`GraphUpdate`, `TableFlow`, `RunHelpers`);
  - the preprocessing worklist that annotates nodes with bitstream locations (`Preprocessing`);
  - the reconfiguration-frame count between two configurations (`ConfigCost`);
  - the recursive placement search. Its shared plan dictionary and minimum-runs counter are the state of the class `PlacementSearch.Search`.
- **The C++ port**:
  - graph helpers (`SchedulingHelper`);
  - the merge-sort sorted-status encoding (`BlockingSort`, and `QueryManager.CropStatus`);
  - the bitstream diff and the per-module node split (`QueryManager`);
  - the plan-to-queue conversion and the node search (`ResourceScheduler`);
  - the executor's table pruning, scheduling-graph entries, empty-module placement and table-naming worklist (`ExecutionManager`, `TableInitialisation`);
  - the filter and DMA encoders, which are modelled as logs of the calls they make on the hardware interface (`FilterSetup`, `DmaSetup`);
  - the configuration and graph importers (`ConfigCreator`, `GraphCreator`).

Shared pieces live in `Wrappers` (Option and Result), `ScheduleTypes` (the Python data model), `CoreTypes` (the C++ data model, C++ integer division and `at()`) and `Folds` (map and insert folds over parsed items).

Conventions of the model:

- **Errors.** A Python `raise` and a C++ `throw` become `Failure` with the message the source uses. `std::out_of_range` from `at()` becomes `Failure("out_of_range")`. A `std::get` of the wrong alternative becomes a bad-variant failure. C++ undefined behaviour (an out-of-bounds `operator[]`, a dangling or uninitialised pointer, a division by zero) becomes `Failure("Undefined")`, so no caller is excluded by a precondition.
- **Pointers.** The C++ pointer graph is a map from node names to records. A pointer is an `Option<string>` naming its target.
- **Value semantics.** Python dicts and lists become values. A function that mutates its argument returns the new value.
- **Unseen collaborators.** `kSupportedFunctions`, the accelerator library's capacity lookup, the record-size computation, the crossbar finder and the bitstream configuration helper have no source in this model. They become parameters.
- **Unordered iteration.** Iteration over a Python set or a C++ `unordered_map` has no fixed order. The model makes it a nondeterministic choice (`:|`), and the proofs hold for every order.
- **Loops.** Each source loop is a Dafny method whose `ensures` ties its result to a specification function. The properties are proved about that function as lemmas.

The sorted-status encoding is modelled as written. The blocking sort ends a sort with the one-entry status `{record_count}`, and that status is described as "fully sorted". `IsTableSorted`, however, only accepts a four-entry status or an empty table. The model keeps both behaviours, and the lemmas `SchedulingHelper.OneEntryStatusIsNotSorted` and `BlockingSort.FinishedSortIsNotRecognised` state the mismatch.

## Model

| member | source | states |
|---|---|---|
| `Selection.LeastIsMinimum` | extra_scripts/scheduling_benchmarks/schedule.py:58-61 | the running minimum started from `sys.maxsize` is at most every element and is either the start value or one of the elements |
| `Selection.GreatestIsMaximum` | extra_scripts/scheduling_benchmarks/schedule.py:70-73 | the running maximum started from 0 is at least every element and is either 0 or one of the elements |
| `Selection.LeastStart` | extra_scripts/scheduling_benchmarks/schedule.py:57-61 | the first loop of FIRST computes the minimum start column (from `sys.maxsize` down) |
| `Selection.GreatestStart` | extra_scripts/scheduling_benchmarks/schedule.py:69-73 | the first loop of LAST computes the maximum start column (from 0 up) |
| `Selection.LeastLength` | extra_scripts/scheduling_benchmarks/schedule.py:81-87 | the first loop of SHORTEST computes the minimum length `end-start+1` |
| `Selection.GreatestLength` | extra_scripts/scheduling_benchmarks/schedule.py:96-102 | the first loop of LONGEST computes the maximum length `end-start+1` |
| `Selection.CollectMatching` | extra_scripts/scheduling_benchmarks/schedule.py:62-65 | the second loop of every heuristic appends each matching placement not yet chosen, i.e. computes `KeepDistinct` |
| `Selection.SelectPlacements` | extra_scripts/scheduling_benchmarks/schedule.py:52-119 | calling a `ModuleSelection` member returns exactly what the heuristic's definition `Apply` prescribes |
| `Selection.ApplyClause` | extra_scripts/scheduling_benchmarks/schedule.py:433-437 | one clause applies its heuristics left to right to a copy of the placements |
| `Selection.UniteClauseResults` | extra_scripts/scheduling_benchmarks/schedule.py:438-443 | the clause results are united in first-occurrence order without duplicates |
| `Selection.SelectAccordingToPreferences` | extra_scripts/scheduling_benchmarks/schedule.py:430-444 | the result is the union of each clause's left-to-right composition, in first-occurrence order |
| `Selection.KeepDistinctCharacterisation` | extra_scripts/scheduling_benchmarks/schedule.py:62-65 | the collecting loop keeps exactly the input placements that match, each once, in input order |
| `Selection.ApplyIsSubset` | extra_scripts/scheduling_benchmarks/schedule.py:52-107 | no heuristic returns a placement that was not in its input |
| `Selection.FirstKeepsMinimumStart` | extra_scripts/scheduling_benchmarks/schedule.py:56-65 | FIRST keeps exactly the placements of minimum start (at most `sys.maxsize`), duplicate-free, in input order |
| `Selection.LastKeepsMaximumStart` | extra_scripts/scheduling_benchmarks/schedule.py:68-77 | LAST keeps exactly the placements of maximum start (at least 0), duplicate-free, in input order |
| `Selection.ShortestKeepsMinimumLength` | extra_scripts/scheduling_benchmarks/schedule.py:80-92 | SHORTEST keeps exactly the placements of minimum length `end-start+1`, duplicate-free, in input order |
| `Selection.LongestKeepsMaximumLength` | extra_scripts/scheduling_benchmarks/schedule.py:95-107 | LONGEST keeps exactly the placements of maximum length, duplicate-free, in input order |
| `Selection.ComposeIsSubset` | extra_scripts/scheduling_benchmarks/schedule.py:433-437 | a composed clause only narrows its input |
| `Selection.FlattenMembership` | extra_scripts/scheduling_benchmarks/schedule.py:439-440 | an element is in the concatenated clause results iff it is in one of them |
| `Selection.PreferencesCharacterisation` | extra_scripts/scheduling_benchmarks/schedule.py:430-444 | a placement is chosen iff some clause's composition keeps it; the result is duplicate-free, in first-occurrence order, and a sublist of the input |
| `Selection.SingleClausePreference` | extra_scripts/scheduling_benchmarks/schedule.py:430-444 | with one single-heuristic clause (other than ALL) the preferences equal that heuristic's result |
| `Selection.ApplyDistinct` | extra_scripts/scheduling_benchmarks/schedule.py:56-107 | FIRST, LAST, SHORTEST and LONGEST return duplicate-free lists |
| `Selection.KeepDistinctOfDistinct` | extra_scripts/scheduling_benchmarks/schedule.py:439-443 | uniting a duplicate-free list returns it unchanged |
| `ColumnFit.ScanBack` | extra_scripts/scheduling_benchmarks/schedule.py:423-427 | the backward scan returns one past the last range ending before the start, or `len(taken)` when every range ends at or after it |
| `ColumnFit.GetModuleIndex` | extra_scripts/scheduling_benchmarks/schedule.py:419-427 | raises exactly on an empty taken list; 0 when the start precedes the first range; otherwise one past the last range ending before the start |
| `ColumnFit.FitIsSound` | extra_scripts/scheduling_benchmarks/schedule.py:395-404 | for sorted disjoint taken ranges, an accepted range overlaps no taken range and lies between the ranges around its insert index |
| `ColumnFit.InsertElements` | extra_scripts/scheduling_benchmarks/schedule.py:218-219 | the slice insertion `run[k:k] = [m]` places `m` at k and shifts the later modules by one |
| `ColumnFit.InsertSorted` | extra_scripts/scheduling_benchmarks/schedule.py:218-219 | inserting a fitting range at its index keeps the run sorted and disjoint |
| `ColumnFit.NameIndex` | extra_scripts/scheduling_benchmarks/schedule.py:388-389 | `list.index` returns a position holding the name |
| `ColumnFit.FitAtIsSound` | extra_scripts/scheduling_benchmarks/schedule.py:395-406 | a fitting candidate carries the module index of `get_module_index` and its columns overlap no taken range |
| `ColumnFit.LocationFailureExtends` | extra_scripts/scheduling_benchmarks/schedule.py:387-406 | an exception raised for one name ends the scan of a location with that error |
| `ColumnFit.CandidatesFailureExtends` | extra_scripts/scheduling_benchmarks/schedule.py:384-406 | an exception raised at one location ends the whole scan with that error |
| `ColumnFit.CandidateAtIsGood` | extra_scripts/scheduling_benchmarks/schedule.py:387-406 | a candidate found for one name is good: right start, listed bitstream, no overlap |
| `ColumnFit.LocationCandidatesAreGood` | extra_scripts/scheduling_benchmarks/schedule.py:387-406 | every candidate of one location is good |
| `ColumnFit.CandidatesAreGood` | extra_scripts/scheduling_benchmarks/schedule.py:381-407 | every returned (index, start, bitstream) starts at or after min_position and, given sorted disjoint taken ranges, overlaps none of them and keeps the run sorted when inserted |
| `ColumnFit.FindAllAvailableBitstreamsAfterMinPos` | extra_scripts/scheduling_benchmarks/schedule.py:381-407 | the loop returns the candidates of locations min_position onwards in location order, or the first exception raised |
| `ColumnFit.CandidatesAtLocation` | extra_scripts/scheduling_benchmarks/schedule.py:387-406 | the inner loop returns the fitting candidates of one location in list order |
| `ColumnFit.ModulesOfMembership` | extra_scripts/scheduling_benchmarks/schedule.py:319-321 | the inner loop collects exactly the run's modules of one predecessor |
| `ColumnFit.PrerequisiteMembership` | extra_scripts/scheduling_benchmarks/schedule.py:317-321 | the collected modules are exactly the run's modules of some predecessor |
| `ColumnFit.MinPositionCharacterisation` | extra_scripts/scheduling_benchmarks/schedule.py:316-330 | 0 when no predecessor is in the run; otherwise 1 + the largest end column among the predecessors' modules |
| `ColumnFit.CollectPrerequisites` | extra_scripts/scheduling_benchmarks/schedule.py:317-321 | the nested loops collect the predecessors' modules grouped in before-list order |
| `ColumnFit.GetMinPositionInCurrentRun` | extra_scripts/scheduling_benchmarks/schedule.py:316-330 | a KeyError for an unknown node, otherwise the minimum start column |
| `ColumnFit.BitstreamEnd` | extra_scripts/scheduling_benchmarks/schedule.py:410-416 | KeyError for an unknown operation; succeeds exactly when both subscripts (negative ones counting from the back, as in Python) and the bitstream lookup succeed, with the bitstream named there and `start + length - 1`; for non-negative indices the bitstream is `start_locations[start][index]` |
| `CapacityRules.FindMissingUtility` | extra_scripts/scheduling_benchmarks/schedule.py:710-719 | raises on a length mismatch; the shortfall is `cost - capacity` componentwise; true iff every capacity component covers the cost |
| `CapacityRules.RemainingCapacity` | extra_scripts/scheduling_benchmarks/schedule.py:727-732 | the new capacity is `max(cost - capacity, 0)` componentwise |
| `CapacityRules.NothingRemainsIffCovered` | extra_scripts/scheduling_benchmarks/schedule.py:710-733 | nothing remains exactly when every component was covered; the remainder never exceeds the cost |
| `CapacityRules.UpdateGraphCapacities` | extra_scripts/scheduling_benchmarks/schedule.py:722-733 | a finished node leaves the copy as it was; otherwise only the node's capacity changes, to the clamped shortfall |
| `CapacityRules.FullRuns` | extra_scripts/scheduling_benchmarks/schedule.py:677-679 | the full runs are `(capacity*i, capacity, 0)` for each i |
| `CapacityRules.GetLinearSorterSequences` | extra_scripts/scheduling_benchmarks/schedule.py:671-683 | a ZeroDivisionError exactly for capacity 0; otherwise the full runs and the remainder run |
| `CapacityRules.FullRunsSum` | extra_scripts/scheduling_benchmarks/schedule.py:677-679 | the full runs cover `capacity * count` records |
| `CapacityRules.LinearSorterSequencesCoverTable` | extra_scripts/scheduling_benchmarks/schedule.py:671-683 | the runs are contiguous from 0 and sum to record_count; one run `(0, n, 0)` iff n < capacity, otherwise n // capacity full runs and a remainder run |
| `CapacityRules.LinearSortSortsIffOneRun` | extra_scripts/scheduling_benchmarks/schedule.py:686-688 | after a linear sort the table is sorted iff it has fewer records than the capacity |
| `CapacityRules.MergeMakesProgress` | extra_scripts/scheduling_benchmarks/schedule.py:643-665 | with two or more channels a merge pass leaves fewer runs or lengthens the single run |
| `CapacityRules.UpdateNodeDataTables` | extra_scripts/scheduling_benchmarks/schedule.py:621-668 | the result is `NodeDataTables`, errors in source order: the linear sort always finishes with the linear runs; the merge sort raises on a sorted table and finishes iff the merged table is sorted; other sorters answer false and change nothing |
| `CapacityRules.MergeSortSequences` | extra_scripts/scheduling_benchmarks/schedule.py:646-665 | the merge-sort loops compute the merged runs, Python negative indexing included |
| `CapacityRules.MergeSortRequirement` | extra_scripts/scheduling_benchmarks/schedule.py:1094-1122 | no runs give `(record_count,)`, a sorted table `(0,)`, otherwise `(len(seqs) + record_count - end_of_last,)`; raises on a bad last run or without exactly one table |
| `CapacityRules.CapacityCheckMeaning` | extra_scripts/scheduling_benchmarks/schedule.py:1129-1134 | the inner loop answers whether every capacity component meets the requirement |
| `CapacityRules.FindAdequateBitstreams` | extra_scripts/scheduling_benchmarks/schedule.py:1125-1137 | the loops collect the names whose capacity check passes, or raise |
| `CapacityRules.AdequateFailureExtends` | extra_scripts/scheduling_benchmarks/schedule.py:1127-1136 | an IndexError in one bitstream ends the scan |
| `CapacityRules.AdequateBitstreamsExact` | extra_scripts/scheduling_benchmarks/schedule.py:1125-1137 | the result is exactly the bitstreams whose capacity meets the requirement componentwise |
| `CapacityRules.KeepListedMeaning` | extra_scripts/scheduling_benchmarks/schedule.py:1144-1150 | a filtered slot keeps exactly the listed names and never grows |
| `CapacityRules.KeepListedSplit` | extra_scripts/scheduling_benchmarks/schedule.py:1146-1150 | filtering distributes over concatenation |
| `CapacityRules.GetFittingBitstreamLocations` | extra_scripts/scheduling_benchmarks/schedule.py:1140-1151 | one slot per location, each the location's names filtered in order by deletion from the back |
| `CapacityRules.FittingLocationsMeaning` | extra_scripts/scheduling_benchmarks/schedule.py:1140-1151 | the location filter keeps the same number of slots and only the names of the set |
| `CapacityRules.MinimumCapacityIsABitstream` | extra_scripts/scheduling_benchmarks/schedule.py:1075-1091 | the kept capacity belongs to one of the operation's bitstreams and is no larger than the first one's |
| `CapacityRules.GetMinimumCapacityValues` | extra_scripts/scheduling_benchmarks/schedule.py:1075-1091 | one kept capacity for every operation with bitstreams, or an IndexError |
| `CapacityRules.MinimumCapacityLoop` | extra_scripts/scheduling_benchmarks/schedule.py:1077-1090 | the loops for one operation compute the kept capacity |
| `CapacityRules.MinimumFailureExtends` | extra_scripts/scheduling_benchmarks/schedule.py:1080-1088 | an IndexError for one bitstream ends the scan |
| `GraphUpdate.GetNewAvailableNodes` | extra_scripts/scheduling_benchmarks/schedule.py:157-168 | a KeyError for an unknown node or successor; otherwise exactly the named successors whose streamed inputs are all processed |
| `GraphUpdate.NewlyAvailableMeaning` | extra_scripts/scheduling_benchmarks/schedule.py:157-168 | each new node is a named successor with every streamed predecessor processed, and processing more nodes never removes one |
| `GraphUpdate.NodeIndexes` | extra_scripts/scheduling_benchmarks/schedule.py:782-791 | every returned pair is a before position naming the node, with that slot's stream index |
| `GraphUpdate.NodeIndexesComplete` | extra_scripts/scheduling_benchmarks/schedule.py:782-791 | every before entry naming the node is listed; the list is empty iff none names it |
| `GraphUpdate.NodeIndexesAscending` | extra_scripts/scheduling_benchmarks/schedule.py:782-791 | the pairs are in strictly ascending position |
| `GraphUpdate.GetCurrentNodeIndex` | extra_scripts/scheduling_benchmarks/schedule.py:782-791 | a KeyError for an unknown successor, the ValueError when nothing names the node, otherwise the (position, stream) pairs |
| `GraphUpdate.AssignTablesMeaning` | extra_scripts/scheduling_benchmarks/schedule.py:1208-1212 | relinking succeeds iff each slot exists and its stream index selects a name; each such slot then holds `table_names[stream]`, others unchanged |
| `GraphUpdate.WritableStep` | extra_scripts/scheduling_benchmarks/schedule.py:1210-1212 | writability of k slots is that of k-1 slots plus the k-th |
| `GraphUpdate.RelinkStep` | extra_scripts/scheduling_benchmarks/schedule.py:785-788 | the index scan of k entries extends that of k-1 entries |
| `GraphUpdate.AssignTablesSnoc` | extra_scripts/scheduling_benchmarks/schedule.py:1210-1212 | one more slot write follows the earlier ones |
| `GraphUpdate.PropagateTablesShape` | extra_scripts/scheduling_benchmarks/schedule.py:1202-1212 | propagation keeps the keys, every field but the tables, their count, and every node that is not a successor |
| `GraphUpdate.PropagateTablesSucceeds` | extra_scripts/scheduling_benchmarks/schedule.py:1202-1212 | propagation succeeds iff every linked slot of every successor can be written |
| `GraphUpdate.PropagateTablesContent` | extra_scripts/scheduling_benchmarks/schedule.py:1202-1212 | every successor slot naming the node holds the table of its stream index; every other slot is kept |
| `GraphUpdate.PropagateStepFails` | extra_scripts/scheduling_benchmarks/schedule.py:1208-1212 | a failed slot write ends the propagation with its error |
| `GraphUpdate.PropagateFailureExtends` | extra_scripts/scheduling_benchmarks/schedule.py:1203-1212 | a failure at one successor ends the propagation with that error |
| `GraphUpdate.AssignFailureExtends` | extra_scripts/scheduling_benchmarks/schedule.py:1210-1212 | a failure at one slot ends the slot writes with that error |
| `GraphUpdate.AssignSlots` | extra_scripts/scheduling_benchmarks/schedule.py:1209-1211 | the loop over one successor's listed input slots computes the relinked tables, or the first IndexError raised |
| `GraphUpdate.AddNewTableToNextNodes` | extra_scripts/scheduling_benchmarks/schedule.py:1202-1212 | the in-place loops compute the propagation, or the first exception raised |
| `GraphUpdate.RemoveFromGraph` | extra_scripts/scheduling_benchmarks/schedule.py:1033-1072 | the in-place edits of remove_from_graph computed as the bypass specification `Unlinked` |
| `GraphUpdate.RemovalBypassesNode` | extra_scripts/scheduling_benchmarks/schedule.py:1033-1072 | with a live predecessor and successor: the node is gone, the predecessor's after slot names the successor, the successor's first slot naming the node holds its before edge, nothing else changes |
| `GraphUpdate.RemovalKeepsNodeData` | extra_scripts/scheduling_benchmarks/schedule.py:1033-1072 | a removal raises unless the node is 1-in/1-out; when it succeeds only the node is deleted and no other node's operation, capacity, tables or bitstreams change |
| `TableFlow.LargestInputIsUnique` | extra_scripts/scheduling_benchmarks/schedule.py:748-755 | the largest-input rule designates a single table |
| `TableFlow.LargestInput` | extra_scripts/scheduling_benchmarks/schedule.py:748-755 | the loop computes the scan `LargestFrom`: "" when every count is negative, otherwise the last input of largest record count; a KeyError for a missing table |
| `TableFlow.GetResultingTables` | extra_scripts/scheduling_benchmarks/schedule.py:737-757 | the result is `ResultingTables`: raises on no inputs or an unsorted input of a `sorted_input` node; a join-like node hands on its largest input, every other node forwards its inputs |
| `TableFlow.GetWorstCaseFullyProcessedTables` | extra_scripts/scheduling_benchmarks/schedule.py:1154-1199 | the result is `WorstCaseTables` (the sorters' loops as `SortedCopies`): raises on no inputs or a bad capacity; a partial sort yields `_half_sorted`/`_fully_sorted` copies (for one input: with exactly the linear runs), a merge sort the input or its `_fully_sorted` copy, sorted; others forward or pick the largest input; old table keys are kept |
| `TableFlow.PartialSortCopies` | extra_scripts/scheduling_benchmarks/schedule.py:1162-1174 | the partial-sort loop computes `SortedCopies` with the linear sorter |
| `TableFlow.BlockingSortCopies` | extra_scripts/scheduling_benchmarks/schedule.py:1176-1187 | the blocking-sort loop computes `SortedCopies` for a blocking sort |
| `TableFlow.SortedCopiesOne` | extra_scripts/scheduling_benchmarks/schedule.py:1162-1187 | with one input the loop hands on the one name its step makes, with the table it writes |
| `TableFlow.SortedCopiesFrame` | extra_scripts/scheduling_benchmarks/schedule.py:1162-1187 | the loops hand on one name per input, each a table of the result, and keep every table whose name they do not hand on |
| `TableFlow.PartialCopyNames` | extra_scripts/scheduling_benchmarks/schedule.py:1162-1174 | each partial-sort name is the input's with `_half_sorted` or `_fully_sorted` appended |
| `TableFlow.BlockingCopiesSorted` | extra_scripts/scheduling_benchmarks/schedule.py:1176-1187 | each blocking-sort name is the input or its `_fully_sorted` copy, and every table handed on is sorted |
| `TableFlow.SortedCopiesSucceed` | extra_scripts/scheduling_benchmarks/schedule.py:1162-1187 | when no input is a copy name: a partial sort succeeds iff every input is a table and the capacity is not 0, a blocking sort iff every input is a table |
| `TableFlow.BlockingCopyNamesExact` | extra_scripts/scheduling_benchmarks/schedule.py:1176-1187 | when no input is a copy name: input k is handed on as itself when `is_table_sorted` accepts it and otherwise as its `_fully_sorted` copy |
| `TableFlow.BlockingCopiesExact` | extra_scripts/scheduling_benchmarks/schedule.py:1176-1187 | when no input is a copy name: the table handed on for input k is the input unchanged when `is_table_sorted` accepts it, and otherwise a copy holding its record count and the single run (0, record_count, 0) |
| `TableFlow.PartialCopyNamesExact` | extra_scripts/scheduling_benchmarks/schedule.py:1162-1174 | when no input is a copy name: input k is handed on as its `_half_sorted` copy when the linear sorter leaves several runs, else as its `_fully_sorted` copy |
| `TableFlow.PartialCopiesExact` | extra_scripts/scheduling_benchmarks/schedule.py:1162-1174 | when no input is a copy name: the copy handed on for input k holds its data with exactly the linear sorter's runs |
| `TableFlow.RetireKeys` | extra_scripts/scheduling_benchmarks/schedule.py:760-770 | a retirement succeeds only for distinct nodes of the graph, and a node remains iff it was not retired |
| `TableFlow.RetireKeepsNodes` | extra_scripts/scheduling_benchmarks/schedule.py:760-770 | the remaining nodes keep everything but their input table names, and the number of inputs |
| `TableFlow.RetireRemovesExactly` | extra_scripts/scheduling_benchmarks/schedule.py:760-770 | update_next_node_tables deletes exactly the finished and skipped nodes and changes only input table names elsewhere |
| `TableFlow.UpdateNextNodeTables` | extra_scripts/scheduling_benchmarks/schedule.py:760-779 | the loop retires the node and then each skipped node, in order |
| `TableFlow.RetireFailureExtends` | extra_scripts/scheduling_benchmarks/schedule.py:766-770 | a failure while retiring one node ends the update with that error |
| `TableFlow.TablesSortedMeaning` | extra_scripts/scheduling_benchmarks/schedule.py:693-697 | the first loop answers true iff every input table is sorted on column 0 |
| `TableFlow.SortingSuccessorsMeaning` | extra_scripts/scheduling_benchmarks/schedule.py:701-705 | the skipped nodes are exactly the named successors whose operation sorts; a KeyError otherwise |
| `TableFlow.CheckForSkippableSortOperations` | extra_scripts/scheduling_benchmarks/schedule.py:691-706 | when all of the node's tables are sorted, the sorting successors are skipped; otherwise none |
| `TableFlow.SkippableFailureExtends` | extra_scripts/scheduling_benchmarks/schedule.py:701-705 | a KeyError at one successor ends the scan |
| `TableFlow.ElementsOfCons` | extra_scripts/scheduling_benchmarks/schedule.py:764-770 | the retired nodes are the node and the skipped nodes |
| `TableFlow.UpdateAllNodes` | extra_scripts/scheduling_benchmarks/schedule.py:585-618 | a non-sorting node finishes iff the capacity covers its cost, else keeps the clamped shortfall; a sorting node's finished flag and tables are those of `NodeDataTables` and it skips sorting successors; a finished node and its skipped nodes are retired with the names `ResultingTables` gives, so they leave the graph and only input table names change elsewhere |
| `Preprocessing.FittingLocations` | extra_scripts/scheduling_benchmarks/schedule.py:1140-1151 | one list per start column, holding exactly the column's bitstreams that are adequate |
| `Preprocessing.LocatedListsStarts` | extra_scripts/scheduling_benchmarks/schedule.py:1007-1015 | recorded locations list, column by column, only adequate bitstreams that may start in that column |
| `Preprocessing.PreservesTransitive` | extra_scripts/scheduling_benchmarks/schedule.py:1000-1030 | steps that keep every field but the tables compose with the preprocessing's guarantee |
| `Preprocessing.AttachLocations` | extra_scripts/scheduling_benchmarks/schedule.py:1005-1015 | fails exactly when the operation is unknown or the capacity check raises; with no adequate bitstream the graph is unchanged, otherwise only the node's satisfying bitstreams change, to the start locations of exactly the bitstreams adequate for its requirement |
| `Preprocessing.HandOnWorstCase` | extra_scripts/scheduling_benchmarks/schedule.py:1016-1021 | KeyError for an unknown operation; the handed-on names and the new data tables are exactly `WorstCaseTables` of the node's inputs with its operation's minimum capacity (sorted copies with their runs for the sorters, the largest input, or the inputs) and every successor slot fed by the node takes the table of its stream, nothing else changing |
| `Preprocessing.DropSatisfied` | extra_scripts/scheduling_benchmarks/schedule.py:1023-1030 | succeeds exactly when the removal does and, for an available node, its successors are all in the graph; the node is bypassed and deleted, and an available node leaves the available set, which gains the successors it frees |
| `Preprocessing.AddSatisfyingBitstreamLocationsToGraph` | extra_scripts/scheduling_benchmarks/schedule.py:994-1030 | the worklist only drops nodes and keeps operations and capacities; a node whose satisfying bitstreams changed holds the start locations of the bitstreams adequate for a requirement of its operation; every table entry is kept and available nodes come only from the graph |
| `Preprocessing.TablesDifferMeaning` | extra_scripts/scheduling_benchmarks/schedule.py:543-551 | no change is reported iff every input kept its metadata; a change only when some input's metadata differs |
| `Preprocessing.AnyNodeChanged` | extra_scripts/scheduling_benchmarks/schedule.py:510-518 | true only when some node changed capacity or tables, false only when none did, a failure only where a comparison raises |
| `Preprocessing.CheckTableEquality` | extra_scripts/scheduling_benchmarks/schedule.py:543-551 | the loop computes the table comparison, exceptions included |
| `Preprocessing.SuccessorsChangedMeaning` | extra_scripts/scheduling_benchmarks/schedule.py:519-527 | no update is asked for iff every named successor is still in the graph with unchanged tables |
| `Preprocessing.UpdateSatisfyingBitstreams` | extra_scripts/scheduling_benchmarks/schedule.py:507-540 | with nothing changed everything is returned as it was; otherwise the preprocessing reruns with its guarantees |
| `RunHelpers.RunHasFirstModule` | extra_scripts/scheduling_benchmarks/schedule.py:307-312 | true iff some module of another node in the run has a "first_module" operation; always succeeds when every operation is known, and only fails with KeyError |
| `RunHelpers.CurrentRunHasFirstModule` | extra_scripts/scheduling_benchmarks/schedule.py:307-312 | the early-returning scan computes exactly that answer, KeyError included |
| `RunHelpers.FeedsFromRun` | extra_scripts/scheduling_benchmarks/schedule.py:292-296 | the nested loop finds a module of the run that is a streamed (index not -1) predecessor of the node, iff one exists |
| `RunHelpers.AvailableInRun` | extra_scripts/scheduling_benchmarks/schedule.py:288-304 | fails (KeyError) iff some available node or its operation is unknown; otherwise keeps exactly the available, unblocked nodes that are not first nodes fed from the run and, for first-module operations, whose run has no other first module |
| `RunHelpers.NodeDropped` | extra_scripts/scheduling_benchmarks/schedule.py:292-303 | the per-node body of the filter computes the drop decision, KeyError included |
| `RunHelpers.RemoveUnavailableNodesInThisRun` | extra_scripts/scheduling_benchmarks/schedule.py:288-304 | the loop over the set, in any order, computes AvailableInRun |
| `RunHelpers.GetTakenColumns` | extra_scripts/scheduling_benchmarks/schedule.py:333-337 | the taken columns are the positions of the run's modules, in run order |
| `RunHelpers.PlacementsOf` | extra_scripts/scheduling_benchmarks/schedule.py:365-371 | one placement per candidate, in order, for this node and operation, starting at the candidate's column and ending where its bitstream ends |
| `RunHelpers.ChosenPlacementsAreGood` | extra_scripts/scheduling_benchmarks/schedule.py:359-378 | given sorted disjoint taken columns every offered placement belongs to the node and operation, starts at or after the minimum position and (for positive-length bitstreams) overlaps no taken range and fits at its insertion index |
| `RunHelpers.GetChosenModulePlacements` | extra_scripts/scheduling_benchmarks/schedule.py:359-378 | the method computes the candidates after the minimum position, turned into modules and filtered by the selection clauses (nothing when no candidate) |
| `RunHelpers.ScheduledModulesAreGood` | extra_scripts/scheduling_benchmarks/schedule.py:341-356 | every placement offered to a node, from either clause list, is good for it |
| `RunHelpers.GetScheduledModulesForNodeAfterPos` | extra_scripts/scheduling_benchmarks/schedule.py:341-356 | the satisfying-bitstream locations with the second clause list are tried first (when present and more than one list is given), falling back to all start locations with the first list; missing lists raise IndexError |
| `RunHelpers.ClearFedSlotsMeaning` | extra_scripts/scheduling_benchmarks/schedule.py:172-177 | blanking succeeds iff every fed slot index lies in the table list; then exactly the fed slots are blank and the others keep their table |
| `RunHelpers.TablesSize` | extra_scripts/scheduling_benchmarks/schedule.py:179-183 | summing the named tables' data succeeds iff every non-blank name is a known table, otherwise KeyError |
| `RunHelpers.TablesSizeNonnegative` | extra_scripts/scheduling_benchmarks/schedule.py:179-183 | with non-negative record sizes and counts the streamed data size is non-negative |
| `RunHelpers.GetNewStreamedDataSize` | extra_scripts/scheduling_benchmarks/schedule.py:171-184 | the two loops compute the data of the node's input tables not fed by a module already in the run |
| `RunHelpers.AvailableAfter` | extra_scripts/scheduling_benchmarks/schedule.py:495-504 | without satisfied requirements nothing changes; otherwise it fails (KeyError) iff the node is not available or a successor is unknown, and moves the node to the past nodes, keeping the other available nodes and adding only successors whose streamed inputs are all past |
| `RunHelpers.CreateNewAvailableNodesLists` | extra_scripts/scheduling_benchmarks/schedule.py:495-504 | the method computes AvailableAfter |
| `RunHelpers.AfterSkippedMeaning` | extra_scripts/scheduling_benchmarks/schedule.py:467-474 | handling the skipped sort nodes only adds past nodes, and with satisfied requirements every skipped node ends past |
| `RunHelpers.ProcessSkippedNodes` | extra_scripts/scheduling_benchmarks/schedule.py:467-474 | the loop raises "Skipped nodes processes in the wrong order!" for a skipped node not available at its turn and otherwise applies the availability update node by node |
| `RunHelpers.DataSensitive` | extra_scripts/scheduling_benchmarks/schedule.py:554-560 | the depth-first walk only adds "Merge Sort" nodes of the graph to the blocked set and adds every direct "Merge Sort" successor |
| `RunHelpers.DataSensitiveCloses` | extra_scripts/scheduling_benchmarks/schedule.py:554-560 | a completed walk blocks exactly the nodes blocked before and the "Merge Sort" nodes reachable from the node along successor edges |
| `RunHelpers.DataSensitiveAfterCloses` | extra_scripts/scheduling_benchmarks/schedule.py:555-560 | walking a successor list blocks exactly the nodes blocked before and the "Merge Sort" nodes reachable from the listed successors |
| `RunHelpers.DataSensitiveAfter` | extra_scripts/scheduling_benchmarks/schedule.py:555-560 | walking a successor list only adds "Merge Sort" nodes and adds each listed "Merge Sort" successor |
| `RunHelpers.NewBlockedNodes` | extra_scripts/scheduling_benchmarks/schedule.py:563-581 | an unknown operation raises KeyError, a non-reducing module leaves the blocked set as it was, and a reducing one only adds "Merge Sort" nodes |
| `PlacementSearch.ExtendsTransitive` | extra_scripts/scheduling_benchmarks/schedule.py:188-285 | two search steps that each only add plans extending the current plan compose into one |
| `PlacementSearch.ExtendsShorter` | extra_scripts/scheduling_benchmarks/schedule.py:243-265 | plans extending the plan with the closed run appended also extend the plan before it |
| `PlacementSearch.InsertModule` | extra_scripts/scheduling_benchmarks/schedule.py:216-217 | slice insertion `run[i:i] = [m]` lengthens the run by one and, for an index in range, puts the module at that index with the others shifted around it |
| `PlacementSearch.InsertModulePositions` | extra_scripts/scheduling_benchmarks/schedule.py:216-217 | the columns of the new run are the old columns with the module's range inserted at the same index |
| `PlacementSearch.MinPositionNonnegative` | extra_scripts/scheduling_benchmarks/schedule.py:316-330 | the minimum position in the current run is never negative |
| `PlacementSearch.CollectPlacements` | extra_scripts/scheduling_benchmarks/schedule.py:201-210 | every placement collected belongs to an available node kept for this run and, when the run's columns are sorted and disjoint, is good for that node at its minimum position |
| `PlacementSearch.ScheduledModuleNames` | extra_scripts/scheduling_benchmarks/schedule.py:341-356 | every placement offered to a node is that node's |
| `PlacementSearch.Search.constructor` | extra_scripts/scheduling_benchmarks/schedule.py:188-191 | a new search has no plans, the smallest run count at `sys.maxsize` and no timeout |
| `PlacementSearch.Search.CheckTimeLimit` | extra_scripts/scheduling_benchmarks/schedule.py:279-285 | a time check consumes one clock answer and sets the timeout when the limit has passed (or the answers have run out); a timeout is never cleared |
| `PlacementSearch.Search.SavePlan` | extra_scripts/scheduling_benchmarks/schedule.py:272-278 | a complete plan is stored only if new, and the smallest run count drops to its length when it is new and shorter |
| `PlacementSearch.Search.PlaceNodesRecursively` | extra_scripts/scheduling_benchmarks/schedule.py:188-285 | a timed-out search raises "Timeout" and changes nothing; otherwise the search keeps every saved plan, only adds plans extending the current plan, never raises the smallest run count, keeps every saved run sorted and disjoint, and never clears the timeout |
| `PlacementSearch.Search.PlaceAvailableNodes` | extra_scripts/scheduling_benchmarks/schedule.py:197-268 | exploring a current run that still has nodes to place keeps the search invariants, only adds plans extending the current plan, never raises the smallest run count and never clears the timeout |
| `PlacementSearch.Search.PlaceInCurrentRun` | extra_scripts/scheduling_benchmarks/schedule.py:212-226 | placing each offered module in the current run keeps the search invariants and only adds plans extending the current plan |
| `PlacementSearch.Search.PlaceInNextRun` | extra_scripts/scheduling_benchmarks/schedule.py:227-268 | the loop over the available nodes either retries with the next-run blocked nodes joined to the blocked ones or starts a new run, keeping the search invariants |
| `PlacementSearch.Search.StartNextRun` | extra_scripts/scheduling_benchmarks/schedule.py:243-268 | closing the run and placing the node in an empty run keeps the search invariants; no placement in an empty run raises "Something went wrong - Should be able to place nodes in an empty run!" |
| `PlacementSearch.Search.FindNextModulePlacement` | extra_scripts/scheduling_benchmarks/schedule.py:448-492 | updating the graph and tables, the available nodes, the skipped nodes and the blocked nodes before recursing keeps the search invariants |
| `ConfigCost.PyRemove` | extra_scripts/scheduling_benchmarks/schedule.py:1345-1346 | `list.remove` succeeds iff the module is in the list, and drops its first occurrence |
| `ConfigCost.Unmatched` | extra_scripts/scheduling_benchmarks/schedule.py:1339-1346 | the complement of a configuration only holds modules of that configuration |
| `ConfigCost.UnmatchedMembers` | extra_scripts/scheduling_benchmarks/schedule.py:1339-1346 | a module stays in the complement iff it has no module with the same operation, bitstream and columns on the other side |
| `ConfigCost.LastMatch` | extra_scripts/scheduling_benchmarks/schedule.py:1343-1344 | the index found is the last matching current module, -1 iff there is none |
| `ConfigCost.MatchAgainstMeaning` | extra_scripts/scheduling_benchmarks/schedule.py:1343-1346 | with distinct positions a next module matches at most one current module, and the inner loop removes exactly that pair |
| `ConfigCost.ReduceMeaning` | extra_scripts/scheduling_benchmarks/schedule.py:1339-1346 | for configurations with distinct positions the complement loops never raise and leave exactly the unmatched modules of each side, in order |
| `ConfigCost.UnmatchedSelf` | extra_scripts/scheduling_benchmarks/schedule.py:1339-1346 | every module of a configuration is matched by the same configuration |
| `ConfigCost.WriteColumnsMeaning` | extra_scripts/scheduling_benchmarks/schedule.py:1361-1365 | writing a column range succeeds iff it lies in the (negative-index wrapping) frame list, else IndexError; then exactly the covered columns get their full frame cost |
| `ConfigCost.WriteModulesMeaning` | extra_scripts/scheduling_benchmarks/schedule.py:1361-1365 | writing a configuration succeeds iff every module's columns are in range; then exactly the columns some module covers get their full cost |
| `ConfigCost.SumIsCoveredCost` | extra_scripts/scheduling_benchmarks/schedule.py:1357 | the sum of the written frames is the full cost of the columns either side covers |
| `ConfigCost.ColumnCosts` | extra_scripts/scheduling_benchmarks/schedule.py:1334-1336 | the column costs exist iff every resource character has a cost, and then give each column its character's cost |
| `ConfigCost.Kept` | extra_scripts/scheduling_benchmarks/schedule.py:1349-1350 | the left-over list holds exactly the current modules not in the reduced current configuration |
| `ConfigCost.ConfigCostIsCoveredColumns` | extra_scripts/scheduling_benchmarks/schedule.py:1332-1358 | for distinct positions the cost is the full cost of the columns covered by a new or dropped module, and the configuration left holds exactly the matched current modules and the new ones |
| `ConfigCost.IdenticalConfigsCostNothing` | extra_scripts/scheduling_benchmarks/schedule.py:1332-1358 | reloading the configuration already loaded writes nothing and leaves it as it was |
| `ConfigCost.WriteModuleColumns` | extra_scripts/scheduling_benchmarks/schedule.py:1364-1365 | the inner loop writes one module's columns |
| `ConfigCost.FindNewWrittenFrames` | extra_scripts/scheduling_benchmarks/schedule.py:1361-1365 | the nested loops write every column of every module of the configuration |
| `ConfigCost.FullyWrittenFrames` | extra_scripts/scheduling_benchmarks/schedule.py:1334-1336 | the loop computes the column costs, KeyError included |
| `ConfigCost.MatchModule` | extra_scripts/scheduling_benchmarks/schedule.py:1343-1346 | the inner complement loop computes the match of one next module |
| `ConfigCost.ReduceConfigurations` | extra_scripts/scheduling_benchmarks/schedule.py:1339-1346 | the nested complement loops compute the reduced configurations |
| `ConfigCost.LeftOver` | extra_scripts/scheduling_benchmarks/schedule.py:1349-1350 | the list comprehension keeps the current modules not in the reduced current configuration |
| `ConfigCost.FindConfigWrittenForConfiguration` | extra_scripts/scheduling_benchmarks/schedule.py:1332-1358 | the method computes the frames written and the configuration left when `next` replaces `current` |
| `ConfigCost.MatchErrorIsValueError` | extra_scripts/scheduling_benchmarks/schedule.py:1345-1346 | the only way the complement loop fails is a `list.remove` raising ValueError |
| `ConfigCost.PlanWrittenNonnegative` | extra_scripts/scheduling_benchmarks/schedule.py:1321-1329 | with non-negative column costs a plan never has a negative cost |
| `ConfigCost.ConfigWrittenNonnegative` | extra_scripts/scheduling_benchmarks/schedule.py:1332-1358 | with non-negative column costs one reconfiguration never has a negative cost |
| `ConfigCost.RunsWrittenNext` | extra_scripts/scheduling_benchmarks/schedule.py:1324-1328 | costing one more run moves the fold on by that run's cost and configuration |
| `ConfigCost.FindConfigWritten` | extra_scripts/scheduling_benchmarks/schedule.py:1321-1329 | the loop sums the reconfiguration costs run after run, threading the configuration left; an empty plan raises IndexError |
| `SchedulingHelper.Matches` | src/dbmstodspi/query_execution/scheduling/query_scheduling_helper.cpp:28-38 | the indexes at which the predecessor's successor list points to the node: each found index matches, every matching index is found, ascending |
| `SchedulingHelper.ScanForNodeMeaning` | src/dbmstodspi/query_execution/scheduling/query_scheduling_helper.cpp:24-43 | the scan over the successor list ends with the single matching index, the "multiple inputs" error on a second match, or -1 when none matches |
| `SchedulingHelper.FindNodePtrIndex` | src/dbmstodspi/query_execution/scheduling/query_scheduling_helper.cpp:24-43 | succeeds iff exactly one slot of the predecessor points to the node, with that slot's index; otherwise "No current node found!" for none and the "multiple inputs" error for several |
| `SchedulingHelper.OneEntryStatusIsNotSorted` | src/dbmstodspi/query_execution/scheduling/query_scheduling_helper.cpp:47-52 | a table whose status is the one-entry "fully sorted" list counts as sorted iff it has no records |
| `SchedulingHelper.IndexesNaming` | src/dbmstodspi/query_execution/scheduling/query_scheduling_helper.cpp:80-93 | the (slot, stream index) pairs of the input slots naming the node, all of them, ascending by slot |
| `SchedulingHelper.GetCurrentNodeIndexesByName` | src/dbmstodspi/query_execution/scheduling/query_scheduling_helper.cpp:76-100 | succeeds iff the successor is in the graph and some input slot names the node, with all such pairs; otherwise "No next nodes found with the expected dependency", or out_of_range for an unknown successor |
| `SchedulingHelper.AddNewTableToNextNodes` | src/dbmstodspi/query_execution/scheduling/query_scheduling_helper.cpp:54-74 | the nested loops compute the table binding of AddNewTables, exceptions included |
| `SchedulingHelper.SameShapeTransitive` | src/dbmstodspi/query_execution/scheduling/query_scheduling_helper.cpp:54-74 | graphs differing only in slot bindings compose |
| `SchedulingHelper.WriteSlotsEffect` | src/dbmstodspi/query_execution/scheduling/query_scheduling_helper.cpp:60-70 | the slot loop writes only the listed slots of one successor; on true each listed slot holds its stream's table name |
| `SchedulingHelper.WriteSuccessorsFrame` | src/dbmstodspi/query_execution/scheduling/query_scheduling_helper.cpp:57-72 | the successor loop changes only input-slot bindings fed by the node |
| `SchedulingHelper.LaterSuccessorsAreNew` | src/dbmstodspi/query_execution/scheduling/query_scheduling_helper.cpp:57-72 | a run ending in true never revisits a successor whose slots were already bound: a repeated successor ends in false |
| `SchedulingHelper.WriteSuccessorsBinds` | src/dbmstodspi/query_execution/scheduling/query_scheduling_helper.cpp:57-72 | on true every listed successor holds, on each slot the node feeds, the table name of that slot's stream |
| `SchedulingHelper.WriteSuccessorsStops` | src/dbmstodspi/query_execution/scheduling/query_scheduling_helper.cpp:57-72 | on false some slot fed by the node already held its stream's table name |
| `SchedulingHelper.AddNewTablesEffect` | src/dbmstodspi/query_execution/scheduling/query_scheduling_helper.cpp:54-74 | only the slots the node feeds in its listed successors change; on true each holds its stream's table name, on false some such slot already held it |
| `SchedulingHelper.GetNewAvailableNodesAfterSchedulingGivenNode` | src/dbmstodspi/query_execution/scheduling/query_scheduling_helper.cpp:124-148 | succeeds iff the node and its non-empty successors are in the graph (else out_of_range), with exactly the non-empty successors all of whose named predecessors are past |
| `SchedulingHelper.NewlyAvailableStep` | src/dbmstodspi/query_execution/scheduling/query_scheduling_helper.cpp:102-122 | on a consistent graph, marking a node past makes available only that node's own successors |
| `SchedulingHelper.SetAllNodesAsProcessedAfterGivenNode` | src/dbmstodspi/query_execution/scheduling/query_scheduling_helper.cpp:102-122 | every node made available is moved to the past nodes and out of the available ones; the nodes added to the past are exactly those of a discovery order in which each was made available by the given node or by a node processed before it; on a consistent graph no processed node leaves an available successor behind |
| `SchedulingHelper.RelinkPredecessor` | src/dbmstodspi/query_execution/scheduling/query_scheduling_helper.cpp:175-179 | succeeds iff the predecessor is absent or has that output slot (else out_of_range); only that slot of the predecessor changes |
| `SchedulingHelper.RelinkSuccessor` | src/dbmstodspi/query_execution/scheduling/query_scheduling_helper.cpp:181-185 | succeeds iff the successor is known and some input slot names the node; only the first such slot changes, to the given edge |
| `SchedulingHelper.RemoveNodeFromGraph` | src/dbmstodspi/query_execution/scheduling/query_scheduling_helper.cpp:160-201 | unknown node: out_of_range; not one-in-one-out: the "one input and one output" error; on success exactly the node is erased and only its predecessor and successor change |
| `SchedulingHelper.RemoveNodeRelinksPredecessor` | src/dbmstodspi/query_execution/scheduling/query_scheduling_helper.cpp:170-179 | after the removal the predecessor's output slot names the removed node's successor |
| `SchedulingHelper.RemoveNodeRelinksSuccessor` | src/dbmstodspi/query_execution/scheduling/query_scheduling_helper.cpp:181-197 | after the removal the successor's input slot fed by the removed node carries the removed node's own input edge |
| `SchedulingHelper.RemoveNodeFailures` | src/dbmstodspi/query_execution/scheduling/query_scheduling_helper.cpp:170-197 | a one-in-one-out node's removal fails only on a missing output slot of the predecessor or a successor the node does not feed |
| `BlockingSort.GetWorstCaseProcessedTables` | src/dbmstodspi/query_execution/fpga_managing/setup/decorators/blocking_sort_module_setup.cpp:28-47 | anything but one input and one output raises "Unsupporded table counts at preprocessing!"; otherwise succeeds iff both tables are known (else out_of_range), with only the output table, given the input's record count and the status {0, n-1, n, 1} |
| `BlockingSort.WorstCaseIsSorted` | src/dbmstodspi/query_execution/fpga_managing/setup/decorators/blocking_sort_module_setup.cpp:28-47 | the worst-case output table is one IsTableSorted accepts |
| `BlockingSort.UpdateDataTable` | src/dbmstodspi/query_execution/fpga_managing/setup/decorators/blocking_sort_module_setup.cpp:49-118 | the three guard errors in order; on success only the input table's status changes: a capacity covering every run leaves {record_count} and answers true, otherwise capacity-1 runs are merged (start moved on, run count lowered) and it answers false |
| `BlockingSort.UnfinishedPassShrinksRuns` | src/dbmstodspi/query_execution/fpga_managing/setup/decorators/blocking_sort_module_setup.cpp:81-92 | an unfinished pass by a module merging at least two runs leaves a table the next pass accepts, with strictly fewer runs |
| `BlockingSort.MergePasses` | src/dbmstodspi/query_execution/fpga_managing/setup/decorators/blocking_sort_module_setup.cpp:81-92 | repeated passes with a fixed capacity of at least two always finish, after at least one pass, with only the input table changed to {record_count} |
| `BlockingSort.FinishedSortIsNotRecognised` | src/dbmstodspi/query_execution/fpga_managing/setup/decorators/blocking_sort_module_setup.cpp:47-52 | the finished status {record_count} of a non-empty table is not recognised as sorted, so another pass fails with out_of_range rather than "Table is sorted already!" |
| `BlockingSort.SortDataTableWhileMinimizingMinorRuns` | src/dbmstodspi/query_execution/fpga_managing/setup/decorators/blocking_sort_module_setup.cpp:120-143 | the new list gets a 0 and then, when the capacity is below the old run count, the old runs from index capacity on |
| `QueryManager.CropStatus` | src/dbmstodspi/query_execution/scheduling/query_manager.cpp:927-956 | an empty status stays; one entry becomes {record_count}; two entries raise out_of_range; runs within the table stay; a start beyond the records collapses to {record_count}; otherwise only the run count and length change (a zero run length is undefined behaviour) |
| `QueryManager.CeilingQuotient` | src/dbmstodspi/query_execution/scheduling/query_manager.cpp:941-950 | the truncating quotient, plus one when inexact, is the least count of runs of that length covering the records left |
| `QueryManager.CropLeavesShortRun` | src/dbmstodspi/query_execution/scheduling/query_manager.cpp:943-945 | when fewer than one run length of records is left after the start, they form one short run of exactly that many records |
| `QueryManager.CropCountsRuns` | src/dbmstodspi/query_execution/scheduling/query_manager.cpp:946-951 | when at least one run length is left, the run count becomes the ceiling of records left over run length |
| `QueryManager.CropSortedStatus` | src/dbmstodspi/query_execution/scheduling/query_manager.cpp:923-957 | an unknown table raises out_of_range; otherwise only that table's status changes, to its cropped form |
| `QueryManager.CropIsIdempotent` | src/dbmstodspi/query_execution/scheduling/query_manager.cpp:923-957 | with positive run lengths a cropped status fits its table, so cropping again changes nothing |
| `QueryManager.Without` | src/dbmstodspi/query_execution/scheduling/query_manager.cpp:500-508 | the removable modules are exactly the reduced current modules equal to no old routing module, in order |
| `QueryManager.WithoutThenRemove` | src/dbmstodspi/query_execution/scheduling/query_manager.cpp:501-507 | erasing one more module after the others is erasing them all at once |
| `QueryManager.NeededColumns` | src/dbmstodspi/query_execution/scheduling/query_manager.cpp:510-553 | the needed routing columns are ascending and below the bound |
| `QueryManager.NeededColumnsMeaning` | src/dbmstodspi/query_execution/scheduling/query_manager.cpp:510-553 | a column is listed iff a removable module covers it and no reduced-next module does |
| `QueryManager.RoutingNames` | src/dbmstodspi/query_execution/scheduling/query_manager.cpp:547-553 | one routing bitstream name per needed column, in order |
| `QueryManager.MarkColumns` | src/dbmstodspi/query_execution/scheduling/query_manager.cpp:512-515 | writing a module's columns succeeds iff they lie in the frame vector (an empty range always does), and then sets exactly those columns |
| `QueryManager.GetPRBitstreamsToLoadWithPassthroughModules` | src/dbmstodspi/query_execution/scheduling/query_manager.cpp:487-581 | a negative column count is a length_error, a module outside the frame vector undefined, fewer than 31 columns out_of_range; otherwise the required list is the reduced-next bitstreams then the routing bitstream of each freed, uncovered column below 31, ascending; the new current configuration is the left-over one sorted by start column, with one passthrough flag per module, false iff the next configuration loads its bitstream |
| `QueryManager.RemoveOldRoutingModules` | src/dbmstodspi/query_execution/scheduling/query_manager.cpp:500-508 | the nested erase loops leave the reduced current configuration without the old routing modules |
| `QueryManager.MarkFrames` | src/dbmstodspi/query_execution/scheduling/query_manager.cpp:510-516 | the frame vector marks exactly the columns a removable module covers |
| `QueryManager.ClearFrames` | src/dbmstodspi/query_execution/scheduling/query_manager.cpp:524-531 | the reduced-next bitstreams are listed in order and the frames left marked are exactly the freed, uncovered columns |
| `QueryManager.NeededRoutingNames` | src/dbmstodspi/query_execution/scheduling/query_manager.cpp:547-553 | the column-by-column routing list equals the routing names of the needed columns |
| `QueryManager.RoutingForFrames` | src/dbmstodspi/query_execution/scheduling/query_manager.cpp:547-553 | the loop over the first 31 columns lists the routing bitstreams of the marked columns, raising out_of_range on a shorter frame vector |
| `QueryManager.PassthroughFlags` | src/dbmstodspi/query_execution/scheduling/query_manager.cpp:562-572 | one flag per left-over module, in order, passthrough unless the next configuration loads the same bitstream |
| `QueryManager.RunEnd` | src/dbmstodspi/query_execution/scheduling/query_manager.cpp:964-965 | the index of the first -1 marker, or the length when there is none |
| `QueryManager.WithoutAddresses` | src/dbmstodspi/query_execution/scheduling/query_manager.cpp:971-978 | the copies of the stream parameters have their physical addresses cleared and nothing else changed |
| `QueryManager.ModuleParameters` | src/dbmstodspi/query_execution/scheduling/query_manager.cpp:1025-1029 | a module's parameter block is the shared header followed by its own offset entries |
| `QueryManager.AddQueryNodes` | src/dbmstodspi/query_execution/scheduling/query_manager.cpp:959-1037 | returns the marker index; appends to the node list: one node for one location, else one per sorted location where only the first keeps input addresses and only the last output addresses; a resource-elastic node raises "Wrong parameters given!" unless its header gives the location count |
| `QueryManager.AppendComposedNodes` | src/dbmstodspi/query_execution/scheduling/query_manager.cpp:987-998 | appends one composed node per location, sharing the node's parameters |
| `QueryManager.AppendElasticNodes` | src/dbmstodspi/query_execution/scheduling/query_manager.cpp:1015-1034 | succeeds iff the parameter blocks fit the parameters (otherwise undefined behaviour) and then appends one node per location with its own parameter block |
| `ResourceScheduler.FindFrom` | src/dbmstodspi/query_execution/scheduling/elastic_resource_scheduler.cpp:449-466 | a node found carries the searched name; failures are only undefined behaviour (a dangling pointer) or a search deeper than its fuel |
| `ResourceScheduler.FindAmong` | src/dbmstodspi/query_execution/scheduling/elastic_resource_scheduler.cpp:455-463 | a node found among the next pointers carries the searched name |
| `ResourceScheduler.FindFromMeaning` | src/dbmstodspi/query_execution/scheduling/elastic_resource_scheduler.cpp:449-466 | a found node is one the pre-order search can visit, and a search that finds nothing visited no node with the name |
| `ResourceScheduler.FindFromLinks` | src/dbmstodspi/query_execution/scheduling/elastic_resource_scheduler.cpp:449-466 | the search reads only names and next pointers |
| `ResourceScheduler.NodeWithName` | src/dbmstodspi/query_execution/scheduling/elastic_resource_scheduler.cpp:404-418 | a node returned carries the searched name; with no roots the pointer is never initialised (undefined behaviour) |
| `ResourceScheduler.NodeWithNameMeaning` | src/dbmstodspi/query_execution/scheduling/elastic_resource_scheduler.cpp:404-418 | the node returned lies below the first root whose search finds the name, every earlier root found nothing, and "No corresponding node found!" means no node the searches visit has the name |
| `ResourceScheduler.GetNodePointerWithName` | src/dbmstodspi/query_execution/scheduling/elastic_resource_scheduler.cpp:404-418 | the loop over the roots, stopping at the first match, computes NodeWithName |
| `ResourceScheduler.ChannelSizes` | src/dbmstodspi/query_execution/scheduling/elastic_resource_scheduler.cpp:349-374 | a block holds the 64 channel sizes; it fails only on a short status (out_of_range) or the write past column 63 (undefined behaviour) |
| `ResourceScheduler.ChannelSizesFor` | src/dbmstodspi/query_execution/scheduling/elastic_resource_scheduler.cpp:351-374 | the channel loop on a vector of 64 zeros computes the block |
| `ResourceScheduler.MergeSortBlocks` | src/dbmstodspi/query_execution/scheduling/elastic_resource_scheduler.cpp:349-377 | succeeds iff every block does; then n pairs of (64 channel sizes, {i*64}) in order |
| `ResourceScheduler.FirstMergeSort` | src/dbmstodspi/query_execution/scheduling/elastic_resource_scheduler.cpp:343-346 | the index of the run's first merge-sort module, or none when no module is a merge sort |
| `ResourceScheduler.MergeSortParams` | src/dbmstodspi/query_execution/scheduling/elastic_resource_scheduler.cpp:334-377 | an empty leading vector is dropped, then {count, 2} and count pairs of (64 channel sizes, {i*64}) follow; a run without a merge-sort module is undefined behaviour |
| `ResourceScheduler.MergeSortParameters` | src/dbmstodspi/query_execution/scheduling/elastic_resource_scheduler.cpp:334-377 | the method computes the parameter rewrite block by block |
| `ResourceScheduler.FoundKeysMeaning` | src/dbmstodspi/query_execution/scheduling/elastic_resource_scheduler.cpp:321-323 | the run's nodes are exactly the searches' results, and the run fails exactly when one search does |
| `ResourceScheduler.OccurrencesMeaning` | src/dbmstodspi/query_execution/scheduling/elastic_resource_scheduler.cpp:321-325 | the 1-based run positions listed for a node are exactly those of its modules, ascending |
| `ResourceScheduler.AddPositionsLocations` | src/dbmstodspi/query_execution/scheduling/elastic_resource_scheduler.cpp:321-325 | each node's locations gain the 1-based positions of its modules, in run order |
| `ResourceScheduler.AddCountsMeaning` | src/dbmstodspi/query_execution/scheduling/elastic_resource_scheduler.cpp:324 | each name's count grows by the run's modules of that name |
| `ResourceScheduler.ChooseRunNodes` | src/dbmstodspi/query_execution/scheduling/elastic_resource_scheduler.cpp:320-330 | the module loop appends positions, counts modules and lists each node once, in the order of its first module |
| `ResourceScheduler.ChooseSpecChosen` | src/dbmstodspi/query_execution/scheduling/elastic_resource_scheduler.cpp:320-330 | choosing keeps names and links, and the chosen nodes are the searches' results deduplicated, distinct and with distinct names |
| `ResourceScheduler.ClosedNode` | src/dbmstodspi/query_execution/scheduling/elastic_resource_scheduler.cpp:333-381 | closing appends -1 to the node's locations; a merge-sort node gets its new parameters; nothing else changes |
| `ResourceScheduler.CloseRun` | src/dbmstodspi/query_execution/scheduling/elastic_resource_scheduler.cpp:333-382 | the end-of-run loop closes each chosen node with the count of its own name and resets that count |
| `ResourceScheduler.CloseNode` | src/dbmstodspi/query_execution/scheduling/elastic_resource_scheduler.cpp:334-380 | the method computes ClosedNode |
| `ResourceScheduler.ClosedArenaMeaning` | src/dbmstodspi/query_execution/scheduling/elastic_resource_scheduler.cpp:333-382 | after the loop every chosen node is closed and every other node is as it was |
| `ResourceScheduler.ResetCountsMeaning` | src/dbmstodspi/query_execution/scheduling/elastic_resource_scheduler.cpp:381 | the counts of the chosen names are 0 and the others unchanged |
| `ResourceScheduler.ClearedNode` | src/dbmstodspi/query_execution/scheduling/elastic_resource_scheduler.cpp:306-311 | a cleared node has no locations, and no parameters when it is a merge sort; nothing else changes |
| `ResourceScheduler.ClearAvailable` | src/dbmstodspi/query_execution/scheduling/elastic_resource_scheduler.cpp:306-311 | the clearing loop computes ClearedArena, undefined behaviour for a dangling name |
| `ResourceScheduler.ClearedArenaDefined` | src/dbmstodspi/query_execution/scheduling/elastic_resource_scheduler.cpp:306-311 | clearing succeeds iff every available name has a node |
| `ResourceScheduler.ClearedArenaMeaning` | src/dbmstodspi/query_execution/scheduling/elastic_resource_scheduler.cpp:306-311 | every available node is cleared and every other node is as it was |
| `ResourceScheduler.GetQueueOfResultingRuns` | src/dbmstodspi/query_execution/scheduling/elastic_resource_scheduler.cpp:300-386 | the method computes QueueOfRuns: clearing, then per run choosing and closing |
| `ResourceScheduler.RunLocations` | src/dbmstodspi/query_execution/scheduling/elastic_resource_scheduler.cpp:319-382 | a run appends to each node's locations its module positions and -1 when chosen, keeping everything else but the parameters |
| `ResourceScheduler.RunParameters` | src/dbmstodspi/query_execution/scheduling/elastic_resource_scheduler.cpp:333-378 | a chosen merge-sort node gets the parameters of its next pass, computed with its count of modules in the run; every other node keeps its parameters |
| `ResourceScheduler.RunResetsCounts` | src/dbmstodspi/query_execution/scheduling/elastic_resource_scheduler.cpp:381 | after a run every count is 0 again |
| `ResourceScheduler.QueueOfRunsMeaning` | src/dbmstodspi/query_execution/scheduling/elastic_resource_scheduler.cpp:300-386 | one queue entry per run, in plan order, with the run and its chosen nodes (the searched nodes, each once); names and links are kept |
| `ResourceScheduler.QueueOfRunsLocations` | src/dbmstodspi/query_execution/scheduling/elastic_resource_scheduler.cpp:300-386 | each node's final locations are empty for an available node (else its old ones) followed by its markers over the plan; name, links and operation are kept |
| `ResourceScheduler.GetDefaultHeuristics` | src/dbmstodspi/query_execution/scheduling/elastic_resource_scheduler.cpp:420-447 | five (first-module, other-module) pairs; the first four hold one clause list each; the fifth has no first-module clauses and the ALL heuristic for the others |
| `ResourceScheduler.DefaultHeuristicsExtremes` | src/dbmstodspi/query_execution/scheduling/elastic_resource_scheduler.cpp:440-446 | with the fifth pair no placement is offered for a run's first module; with the fourth every distinct placement is |
| `ExecutionManager.RequiredTablesMeaning` | src/core/core_execution/execution_manager.cpp:56-68 | a table is required exactly when it is a non-empty input or output file name of some node |
| `ExecutionManager.CollectRequired` | src/core/core_execution/execution_manager.cpp:56-68 | the first loop collects exactly the required names |
| `ExecutionManager.UnusedNames` | src/core/core_execution/execution_manager.cpp:69-74 | the names to delete are exactly the tables that are not required |
| `ExecutionManager.RemoveUnusedTables` | src/core/core_execution/execution_manager.cpp:52-78 | the tables kept are exactly the required ones among the tables, each with its metadata unchanged |
| `ExecutionManager.NodeIndex` | src/core/core_execution/execution_manager.cpp:132-141 | the index is the first input stream of the successor fed by the node; "Node not found!" exactly when no stream is |
| `ExecutionManager.GetCurrentNodeIndexFromNextNode` | src/core/core_execution/execution_manager.cpp:132-141 | the scan over the predecessors computes NodeIndex |
| `ExecutionManager.AfterNames` | src/core/core_execution/execution_manager.cpp:356-362 | one name per successor, "" for a null pointer; undefined behaviour exactly when a successor is dangling |
| `ExecutionManager.BeforeEdges` | src/core/core_execution/execution_manager.cpp:363-371 | one edge per predecessor: ("", -1) for a null pointer, otherwise its name and the stream where it points at the node |
| `ExecutionManager.BeforeEdgesMirrored` | src/core/core_execution/execution_manager.cpp:363-371 | the stream index of an edge is the one stream of the predecessor that points back at the node |
| `ExecutionManager.SuccessorNames` | src/core/core_execution/execution_manager.cpp:356-362 | the successor loop computes AfterNames |
| `ExecutionManager.PredecessorEdges` | src/core/core_execution/execution_manager.cpp:363-371 | the predecessor loop computes BeforeEdges |
| `ExecutionManager.AddSchedulingNodeToGraph` | src/core/core_execution/execution_manager.cpp:351-381 | the graph gains the node's name and keeps every existing entry; a new entry holds the operation, the capacity, the edges and the input tables; failures are those of the edges |
| `ExecutionManager.PlaceEmptyModules` | src/core/core_execution/execution_manager.cpp:279-288 | the placement loop computes PlaceFrom from position 0 |
| `ExecutionManager.PlaceFromShape` | src/core/core_execution/execution_manager.cpp:279-288 | the placement succeeds iff every unflagged position has a node; it then holds one entry per position followed by the nodes left over |
| `ExecutionManager.PlaceFromAt` | src/core/core_execution/execution_manager.cpp:279-288 | a flagged position holds the empty module of its operation, any other position the next unplaced node, both with location position plus one |
| `TableInitialisation.NatToString` | src/core/core_execution/execution_manager.cpp:102-103 | the decimal form of a stream index is a non-empty string of digits |
| `TableInitialisation.ParseNatToString` | src/core/core_execution/execution_manager.cpp:102-103 | reading the decimal form back gives the number |
| `TableInitialisation.GeneratedName` | src/core/core_execution/execution_manager.cpp:102-103 | a generated table name is never empty |
| `TableInitialisation.GeneratedNamesDistinct` | src/core/core_execution/execution_manager.cpp:102-103 | two output streams of one node never get the same generated name |
| `TableInitialisation.NameOutput` | src/core/core_execution/execution_manager.cpp:99-111 | fails with out_of_range exactly when the output slot is missing; an unnamed output gets its generated name, and that name, when new, a table with the record size of the node's output stream parameters and record count -1; an existing table is never replaced; inputs are untouched |
| `TableInitialisation.HandOn` | src/core/core_execution/execution_manager.cpp:113-127 | an empty input slot of the successor fed by the node takes the node's output table name; every input filled is fed by its predecessor's output; a successor whose last empty input was filled is pushed, and a push means a slot was filled; outputs are untouched |
| `TableInitialisation.HandOnFeeds` | src/core/core_execution/execution_manager.cpp:113-118 | writing the output name into the successor's slot leaves the slot fed by that predecessor |
| `TableInitialisation.InputsFedTrans` | src/core/core_execution/execution_manager.cpp:82-130 | inputs filled in successive steps are all fed by their predecessors' outputs |
| `TableInitialisation.NameStream` | src/core/core_execution/execution_manager.cpp:96-128 | one output stream is named, a new name getting a table with the output stream's record size, and the name is handed to the successor's empty input slot |
| `TableInitialisation.ProcessNode` | src/core/core_execution/execution_manager.cpp:89-128 | a node with an empty input fails with "Table initialisation has an empty table!"; otherwise every stream is named, every input filled holds an output name of the predecessor feeding it, and the node is done |
| `TableInitialisation.InitialiseTables` | src/core/core_execution/execution_manager.cpp:82-130 | on success the graph and the tables only grow, every generated name is a table, every input that was empty and is now filled holds an output name of the predecessor feeding it, and every starting node and every node whose last empty input was filled is done |
| `FilterSetup.Walk` | src/dbmstodspi/query_execution/fpga_managing/setup/filter_setup.cpp:96-119 | every block the signed walk reads has a readable comparison count and clause vectors inside the parameters; a walk fails only with out_of_range or, when the blocks it may read run out, as non-terminating |
| `FilterSetup.WalkSteps` | src/dbmstodspi/query_execution/fpga_managing/setup/filter_setup.cpp:96-119 | consecutive blocks lie 1 + count * 4 apart, backwards for a negative count, the first at the start, and a finished walk steps from its last block to a counter outside 0 .. size - 1 |
| `FilterSetup.WalkOutcome` | src/dbmstodspi/query_execution/fpga_managing/setup/filter_setup.cpp:96-119 | a walk allowed as many steps as there are parameter vectors is non-terminating exactly when it is for every step budget, and otherwise every larger budget gives the same result |
| `FilterSetup.LongWalkLoops` | src/dbmstodspi/query_execution/fpga_managing/setup/filter_setup.cpp:96-119 | a walk that reads more blocks than there are parameter vectors revisits a block and so never ends |
| `FilterSetup.WalkFuelMono` | src/dbmstodspi/query_execution/fpga_managing/setup/filter_setup.cpp:96-119 | a walk that ends within a step budget ends the same way with any larger one |
| `FilterSetup.CycleLoops` | src/dbmstodspi/query_execution/fpga_managing/setup/filter_setup.cpp:96-119 | a walk that comes back to a block it has read never ends |
| `FilterSetup.MaxOrZero` | src/dbmstodspi/query_execution/fpga_managing/setup/filter_setup.cpp:94-115 | the running maximum started at 0 bounds every element and is 0 or one of them |
| `FilterSetup.MaxOrZeroAppend` | src/dbmstodspi/query_execution/fpga_managing/setup/filter_setup.cpp:94-115 | the maximum over two parts is the larger of their maxima |
| `FilterSetup.CapacityRequirement` | src/dbmstodspi/query_execution/fpga_managing/setup/filter_setup.cpp:89-121 | no parameters fail with "No filter parameters given!", and the only other failures are out_of_range and a walk that never ends; a capacity is two numbers, the largest clause id plus one (at least 1) and the largest comparison count (at least 0) |
| `FilterSetup.GetCapacityRequirement` | src/dbmstodspi/query_execution/fpga_managing/setup/filter_setup.cpp:89-121 | the signed walk with its inner loops computes CapacityRequirement, ending where the counter leaves 0 .. size - 1 |
| `FilterSetup.NegativeCountEndsWalk` | src/dbmstodspi/query_execution/fpga_managing/setup/filter_setup.cpp:96-119 | a first block with comparison count -1 moves the counter to -3, which ends the loop with capacity [1, 0] |
| `FilterSetup.BackwardStepLoops` | src/dbmstodspi/query_execution/fpga_managing/setup/filter_setup.cpp:96-119 | three empty blocks followed by one with count -1 send the counter back to 0, so the loop never ends |
| `FilterSetup.BlockMaxClauseId` | src/dbmstodspi/query_execution/fpga_managing/setup/filter_setup.cpp:104-116 | the inner loops find the largest DNF clause id of a block's comparisons, or 0 |
| `FilterSetup.FoldMax` | src/dbmstodspi/query_execution/fpga_managing/setup/filter_setup.cpp:110-115 | the loop over one clause id vector raises the running maximum to the vector's largest id when that is larger |
| `FilterSetup.CapacityOfTestFilter` | tests/dbmstodspi/query_execution/fpga_managing/setup/filter_setup_test.cpp:34-35 | the unit tests' filter needs one DNF clause and one comparison unit |
| `FilterSetup.NewComparison` | src/dbmstodspi/query_execution/fpga_managing/setup/filter_setup.cpp:263-288 | fails with "No DNF IDs given!" exactly when neither literal types nor clause ids are given and with "Incorrect comparison data given!" exactly when the given literal types do not match the clause ids; otherwise every clause has a literal type, positive by default |
| `FilterSetup.MakeComparison` | src/dbmstodspi/query_execution/fpga_managing/setup/filter_setup.cpp:263-288 | the constructor's loop computes NewComparison |
| `FilterSetup.AddressOffset` | src/dbmstodspi/query_execution/fpga_managing/setup/filter_setup.cpp:223-226 | reference values are laid out consecutively, chunk by chunk with positions counting down from 15 |
| `FilterSetup.AddressOfFirstValue` | src/dbmstodspi/query_execution/fpga_managing/setup/filter_setup.cpp:223-226 | the first reference value sits at the given chunk and position |
| `FilterSetup.PaddedFunctions` | src/dbmstodspi/query_execution/fpga_managing/setup/filter_setup.cpp:239-248 | one compare function per lane, padded with kEqual32Bit to four lanes |
| `FilterSetup.PadFunctions` | src/dbmstodspi/query_execution/fpga_managing/setup/filter_setup.cpp:216-248 | the loops compute PaddedFunctions |
| `FilterSetup.EmitLane` | src/dbmstodspi/query_execution/fpga_managing/setup/filter_setup.cpp:219-238 | the value and clause loops of one lane write its values and literals |
| `FilterSetup.EmitTypes` | src/dbmstodspi/query_execution/fpga_managing/setup/filter_setup.cpp:250-260 | the compare-type loop writes one compare-type call per value of lane 0 |
| `FilterSetup.SetComparisons` | src/dbmstodspi/query_execution/fpga_managing/setup/filter_setup.cpp:213-261 | the method computes the lanes' writes followed by the compare-type writes |
| `FilterSetup.BlockComparisons` | src/dbmstodspi/query_execution/fpga_managing/setup/filter_setup.cpp:168-192 | a block yields its count of comparison records, each well formed |
| `FilterSetup.ReadComparisons` | src/dbmstodspi/query_execution/fpga_managing/setup/filter_setup.cpp:168-192 | the comparison loop of a block computes BlockComparisons |
| `FilterSetup.SetAllComparisons` | src/dbmstodspi/query_execution/fpga_managing/setup/filter_setup.cpp:156-197 | the `!=` walk over the blocks computes AllComparisons |
| `FilterSetup.SizeOf` | src/dbmstodspi/query_execution/fpga_managing/setup/filter_setup.cpp:138-153 | a capacity selects a writer exactly when its first entry is 32, 16 or 8 (4, 2 or 1 comparisons); otherwise "Unkown filter size!", undefined behaviour for an empty capacity |
| `FilterSetup.ModuleTrace` | src/dbmstodspi/query_execution/fpga_managing/setup/filter_setup.cpp:35-55 | a capacity that is not two numbers fails with "Don't support composed filters currently!" |
| `FilterSetup.SetupFilterModule` | src/dbmstodspi/query_execution/fpga_managing/setup/filter_setup.cpp:123-154 | the method's calls are the preamble, the comparisons and the writer of the filter's size |
| `FilterSetup.SetupModule` | src/dbmstodspi/query_execution/fpga_managing/setup/filter_setup.cpp:35-55 | the method computes ModuleTrace, input stream 15 selecting the passthrough filter |
| `FilterSetup.NoWriterInComparisons` | src/dbmstodspi/query_execution/fpga_managing/setup/filter_setup.cpp:156-261 | writing comparisons never calls a DNF literal writer |
| `FilterSetup.FilterSetupCallsOneWriter` | src/dbmstodspi/query_execution/fpga_managing/setup/filter_setup.cpp:123-154 | a successful filter setup starts with reset, stream ids and mode, and calls exactly one DNF literal writer, the one of its size, last |
| `FilterSetup.ReferenceValueWritten` | src/dbmstodspi/query_execution/fpga_managing/setup/filter_setup.cpp:217-238 | every reference value of every lane is written at its address |
| `FilterSetup.TestFilterComparisons` | tests/dbmstodspi/query_execution/fpga_managing/setup/filter_setup_test.cpp:34-35 | the unit tests' parameters define one comparison: value 12000, literal 1, clause 0 |
| `FilterSetup.TestComparisonWrites` | src/dbmstodspi/query_execution/fpga_managing/setup/filter_setup.cpp:213-261 | that comparison at chunk 1, position 14 writes its value, its literal and the compare types |
| `FilterSetup.TestFilterTrace` | tests/dbmstodspi/query_execution/fpga_managing/setup/filter_setup_test.cpp:36-97 | the unit tests' setup calls stream ids (0, 1, 1), the mode, the reference value 12000 on lane 0, the positive literal of clause 0 and the compare types at chunk 1, position 14, then the 8-clause writer with width 16 |
| `DmaSetup.NewStreamSetup` | src/DMASetup.cpp:21-34 | a declared stream record has the given id, direction and record count, and no chunk ids or crossbar data yet |
| `DmaSetup.ChunksPerRecordIsCeiling` | src/DMASetup.cpp:152-153 | a record of positive size takes the least number of 16-word chunks that hold it |
| `DmaSetup.ChunkIdPairs` | src/DMASetup.cpp:156-158 | one pair (i, i) per chunk of the record |
| `DmaSetup.LargestPowerOfTwoAtMost` | src/DMASetup.cpp:161-162 | pow(2, (int) log2(n)) is the largest power of two not above n |
| `DmaSetup.RecordsPerBurstIsLargestFit` | src/DMASetup.cpp:160-162 | the records of a burst are a power of two, never overflow the 512-word burst and fill more than half of it |
| `DmaSetup.BurstLengthBounds` | src/DMASetup.cpp:164-168 | the burst length is the ceiling of the burst's words over 4 words per cycle, between 65 and 128 cycles |
| `DmaSetup.CalculatedMeaning` | src/DMASetup.cpp:146-175 | the calculation is defined exactly for record sizes 1 to 512; it appends the pairs (i, i) of every chunk, sets the burst, its length, the buffer 0 to 15 and the address, and keeps the stream's identity, direction, record count and crossbar data |
| `DmaSetup.AppendChunkIdPairs` | src/DMASetup.cpp:156-158 | the loop appends the pairs (0, 0) to (n - 1, n - 1) in order to the existing chunk id pairs, and nothing when the chunk count is not positive |
| `DmaSetup.CalculateDmaStreamSetupData` | src/DMASetup.cpp:146-175 | the arithmetic and the chunk id loop compute Calculated |
| `DmaSetup.ChunkIdCallsAt` | src/DMASetup.cpp:139-143 | the chunk id writes are the record's pairs, in order |
| `DmaSetup.SetUpDmaIoStreams` | src/DMASetup.cpp:116-144 | the method writes the controller of the stream's direction, the record size, then one write per chunk id pair |
| `DmaSetup.EntryCalls` | src/DMASetup.cpp:67-111 | one crossbar chunk makes two writes per offset |
| `DmaSetup.CrossbarPrefix` | src/DMASetup.cpp:63-113 | the crossbar writes are eight per chunk |
| `DmaSetup.CrossbarWriteOrder` | src/DMASetup.cpp:61-114 | the writes of chunk c, offset k are its chunk and position selections of entries 3 + 4k, 2 + 4k, 1 + 4k and 4k, in that order, to the crossbar of the stream's direction |
| `DmaSetup.EmitEntry` | src/DMASetup.cpp:67-111 | the offset loop of one crossbar chunk computes its writes |
| `DmaSetup.SetUpDmaCrossbars` | src/DMASetup.cpp:61-114 | the chunk loop computes the crossbar writes; a selection vector shorter than 16 is undefined behaviour |
| `DmaSetup.SetupDmaModule` | src/DMASetup.cpp:10-59 | the method calculates both streams, finds their crossbars and writes each stream's I/O and crossbar data |
| `DmaSetup.ModuleCallsMeaning` | src/DMASetup.cpp:10-59 | a successful setup has a record size of 1 to 512, starts with the input controller sized by the record count, sizes the output controller 0, and gives both streams the same record size |
| `DmaSetup.IoCallsHead` | src/DMASetup.cpp:116-138 | the third and fourth I/O writes are the stream size and the record size |
| `ConfigCreator.Translate` | src/core/core_input/config_creator.cpp:96-100 | a key translates exactly when every operation name is supported (otherwise out_of_range), one query operation per pair, in order, with its type and parameters |
| `ConfigCreator.TranslateKey` | src/core/core_input/config_creator.cpp:96-100 | the inner loop computes Translate |
| `ConfigCreator.QueryOperationsMapDefined` | src/core/core_input/config_creator.cpp:90-104 | the converted map is defined exactly when every key translates; otherwise out_of_range |
| `ConfigCreator.QueryOperationsMapKeys` | src/core/core_input/config_creator.cpp:90-104 | its keys are exactly the translations of the entries' keys |
| `ConfigCreator.QueryOperationsMapValue` | src/core/core_input/config_creator.cpp:94-102 | the first entry with a given translation keeps its value (`insert` keeps the existing entry) |
| `ConfigCreator.ConvertStringMapToQueryOperations` | src/core/core_input/config_creator.cpp:90-104 | the loop over the entries computes QueryOperationsMap |
| `ConfigCreator.Singletons` | src/core/core_input/config_creator.cpp:197-200 | a new type gets one vector per parameter, holding that parameter's value |
| `ConfigCreator.AppendParams` | src/core/core_input/config_creator.cpp:192-195 | a known type gets each parameter pushed onto its vector; later vectors are kept |
| `ConfigCreator.CollectedMeaning` | src/core/core_input/config_creator.cpp:187-205 | a successful collection names only supported operations, has the types seen as keys and exactly the values seen per vector; supported names with consistent counts make it succeed; failures are out_of_range or an out-of-bounds write |
| `ConfigCreator.FirstOfType` | src/core/core_input/config_creator.cpp:189-203 | the first occurrence of an operation's type is earlier and no earlier operation has that type |
| `ConfigCreator.UniqueAdjacent` | src/core/core_input/config_creator.cpp:210-211 | `std::unique` keeps the same values, ends with the last one, and makes an ascending vector strictly ascending |
| `ConfigCreator.SortedUnique` | src/core/core_input/config_creator.cpp:209-211 | a sorted, uniqued vector is strictly ascending and holds exactly the values of the original |
| `ConfigCreator.NormaliseVectors` | src/core/core_input/config_creator.cpp:208-212 | every vector of a type is sorted and uniqued |
| `ConfigCreator.Normalised` | src/core/core_input/config_creator.cpp:207-213 | the normalised library has the same types, each with sorted, uniqued vectors |
| `ConfigCreator.ModuleLibraryMeaning` | src/core/core_input/config_creator.cpp:182-216 | the module library is defined when every name is supported and each type keeps one parameter count; its keys are the types seen; a type has as many vectors as its first occurrence has parameters; every vector is strictly ascending and holds exactly the values seen at its parameter |
| `ConfigCreator.RecordOperation` | src/core/core_input/config_creator.cpp:188-203 | the method records one operation as AddOperation does |
| `ConfigCreator.NormaliseParams` | src/core/core_input/config_creator.cpp:208-212 | the loop computes NormaliseVectors |
| `ConfigCreator.NormaliseLibrary` | src/core/core_input/config_creator.cpp:207-213 | the loop computes Normalised |
| `ConfigCreator.RecordKey` | src/core/core_input/config_creator.cpp:188-204 | the operations of one key are collected in order |
| `ConfigCreator.ConvertAcceleratorLibraryToModuleLibrary` | src/core/core_input/config_creator.cpp:182-216 | the method computes ModuleLibraryOf |
| `ConfigCreator.TextOf` | src/core/core_input/config_creator.cpp:120-121 | a text field is read when present with that alternative; out_of_range when missing, bad_variant_access when of another alternative |
| `ConfigCreator.NumberOf` | src/core/core_input/config_creator.cpp:122-125 | a number field is read when present with that alternative; out_of_range or bad_variant_access otherwise |
| `ConfigCreator.ListsOf` | src/core/core_input/config_creator.cpp:126-127 | a list-of-lists field is read when present with that alternative; out_of_range or bad_variant_access otherwise |
| `ConfigCreator.SortedSequenceOf` | src/core/core_input/config_creator.cpp:128-129 | a sorted run is read from a pair of at least two numbers, start then length; otherwise out_of_range |
| `ConfigCreator.SortedSequencesMeaning` | src/core/core_input/config_creator.cpp:126-131 | the runs are read exactly when every pair has two numbers, and then run i is pair i |
| `ConfigCreator.TableOfMeaning` | src/core/core_input/config_creator.cpp:118-131 | a table is read exactly when it is well formed, and then its fields are its metadata; a missing or mistyped filename is the first error |
| `ConfigCreator.TablesDataDefined` | src/core/core_input/config_creator.cpp:106-135 | the tables are read exactly when each is well formed |
| `ConfigCreator.TablesDataValue` | src/core/core_input/config_creator.cpp:118-133 | the first table with a filename is the one kept under it |
| `ConfigCreator.TablesDataKeys` | src/core/core_input/config_creator.cpp:106-135 | the keys are exactly the tables' filenames |
| `ConfigCreator.ReadSortedStatus` | src/core/core_input/config_creator.cpp:126-131 | the loop computes SortedSequences |
| `ConfigCreator.ReadTable` | src/core/core_input/config_creator.cpp:119-131 | the method computes TableOf |
| `ConfigCreator.CreateTablesData` | src/core/core_input/config_creator.cpp:106-135 | the loop over the tables computes TablesData |
| `ConfigCreator.ListField` | src/core/core_input/config_creator.cpp:160-163 | an integer-list field is read when present with that alternative; out_of_range or bad_variant_access otherwise |
| `ConfigCreator.NumberField` | src/core/core_input/config_creator.cpp:164-167 | a number field of a bitstream is read when present with that alternative |
| `ConfigCreator.TextField` | src/core/core_input/config_creator.cpp:168-169 | a text field of a bitstream is read when present with that alternative |
| `ConfigCreator.ModuleOfMeaning` | src/core/core_input/config_creator.cpp:159-171 | a bitstream is read exactly when it is well formed; a missing or mistyped capacity is the first error |
| `ConfigCreator.HwEntryMeaning` | src/core/core_input/config_creator.cpp:154-177 | an operation entry is read exactly when its name is supported and its bitstreams are well formed; then it holds its bitstreams and starting locations |
| `ConfigCreator.HwEntryBitstream` | src/core/core_input/config_creator.cpp:157-172 | the first bitstream with a name is the one kept under it |
| `ConfigCreator.HwLibraryDefined` | src/core/core_input/config_creator.cpp:137-180 | the hardware library is read exactly when every entry is |
| `ConfigCreator.HwLibraryKeys` | src/core/core_input/config_creator.cpp:137-180 | its keys are exactly the operation types of the entries' names |
| `ConfigCreator.HwLibraryValue` | src/core/core_input/config_creator.cpp:176-177 | the first entry of an operation type is the one kept |
| `ConfigCreator.ReadModule` | src/core/core_input/config_creator.cpp:159-171 | the method computes ModuleOf |
| `ConfigCreator.ReadBitstreams` | src/core/core_input/config_creator.cpp:156-172 | the loop inserts each bitstream as the generic insertion fold does |
| `ConfigCreator.CreateHwLibrary` | src/core/core_input/config_creator.cpp:137-180 | the loop over the entries computes HwLibrary |
| `GraphCreator.NamesOf` | src/input_managing/graph_creator.cpp:58-59 | a list-of-names field is read when present with that alternative; out_of_range when missing, bad_variant_access otherwise |
| `GraphCreator.TextOf` | src/input_managing/graph_creator.cpp:70-71 | a text field is read when present with that alternative; out_of_range or bad_variant_access otherwise |
| `GraphCreator.ParamsOf` | src/input_managing/graph_creator.cpp:51-52 | the parameter map is read when present with that alternative; out_of_range or bad_variant_access otherwise |
| `GraphCreator.OptionalNamesOf` | src/input_managing/graph_creator.cpp:76-85 | an absent field is none, a present one must be a list of names (else bad_variant_access) |
| `GraphCreator.ParamAt` | src/input_managing/graph_creator.cpp:53-56 | a parameter list is read when its key is present, else out_of_range |
| `GraphCreator.NodeOf` | src/input_managing/graph_creator.cpp:50-86 | a node read in the first pass keeps its name and has no links |
| `GraphCreator.NodeOfMeaning` | src/input_managing/graph_creator.cpp:50-86 | a node is read exactly when it is well formed; it then carries its files, operation type and parameters unchanged, an output is checked exactly when it has a file name, and its previous and next lists are remembered when given |
| `GraphCreator.IsChecked` | src/input_managing/graph_creator.cpp:60-63 | one flag per output, set exactly when the output has a file name |
| `GraphCreator.ReadNode` | src/input_managing/graph_creator.cpp:51-85 | the method computes NodeOf |
| `GraphCreator.Slots` | src/input_managing/graph_creator.cpp:96-109 | input slot i pairs previous name i with input file i |
| `GraphCreator.PreviousLinksMeaning` | src/input_managing/graph_creator.cpp:89-110 | a previous list is accepted exactly when it has one entry per input file and each slot has exactly one of a named node and a file; a wrong length fails with "Incorrect number of input file definitions found!" first, then the first bad slot's "Input file not required!", "Input file required!" or out_of_range |
| `GraphCreator.NextLinksMeaning` | src/input_managing/graph_creator.cpp:111-120 | a next list is accepted exactly when every name it gives is a node; "" gives a null pointer |
| `GraphCreator.Linked` | src/input_managing/graph_creator.cpp:88-121 | the second pass keeps the node's name |
| `GraphCreator.AddPreviousNodes` | src/input_managing/graph_creator.cpp:89-110 | the method sets the previous pointers exactly as PreviousLinks computes, or fails with its error |
| `GraphCreator.AddNextNodes` | src/input_managing/graph_creator.cpp:111-120 | the method sets the next pointers exactly as NextLinks computes, or fails with its error |
| `GraphCreator.LinkNode` | src/input_managing/graph_creator.cpp:88-121 | the method computes Linked |
| `GraphCreator.RootsMeaning` | src/input_managing/graph_creator.cpp:123-130 | a name is a start node exactly when it names a node with no live previous pointer |
| `GraphCreator.DefinedNames` | src/input_managing/graph_creator.cpp:50 | the node names of the input definition, in order |
| `GraphCreator.NodesMapAt` | src/input_managing/graph_creator.cpp:65-74 | with distinct names, each first-pass node is stored under its name |
| `GraphCreator.NodesMapKeys` | src/input_managing/graph_creator.cpp:65-74 | the first-pass map's keys are exactly the nodes' names |
| `GraphCreator.RelinkedAt` | src/input_managing/graph_creator.cpp:88-121 | relinking keeps the keys, replaces a linked node by its last linked version and keeps every other node |
| `GraphCreator.LastIndexOfName` | src/input_managing/graph_creator.cpp:88-121 | the last position of a node with that name |
| `GraphCreator.PassesKeepNames` | src/input_managing/graph_creator.cpp:50-121 | reading and linking keep each node's name |
| `GraphCreator.GraphKeys` | src/input_managing/graph_creator.cpp:30-133 | the graph's nodes are exactly the input definition's node names |
| `GraphCreator.GraphNodeAt` | src/input_managing/graph_creator.cpp:30-133 | each node of the input definition is kept under its name with its links |
| `GraphCreator.LinkedMeaning` | src/input_managing/graph_creator.cpp:88-121 | a linked node's pointers all name nodes, and a node with a previous list has one previous pointer per input file, set exactly where no input file is given |
| `GraphCreator.GraphLinks` | src/input_managing/graph_creator.cpp:30-133 | every link of a node of the graph names a node of the graph, and previous pointers are set exactly where no input file is given |
| `GraphCreator.GraphRoots` | src/input_managing/graph_creator.cpp:123-132 | a node is a start node exactly when it has no live previous pointer |
| `GraphCreator.GraphRootsAreNodes` | src/input_managing/graph_creator.cpp:123-132 | every start node is a node of the graph |
| `GraphCreator.ReadNodes` | src/input_managing/graph_creator.cpp:50-86 | the first loop reads every node and inserts it under its name |
| `GraphCreator.LinkNodes` | src/input_managing/graph_creator.cpp:88-121 | the second loop links every node and replaces it under its name |
| `GraphCreator.HasLivePrevious` | src/input_managing/graph_creator.cpp:125-127 | true exactly when some previous pointer is set |
| `GraphCreator.StartNodes` | src/input_managing/graph_creator.cpp:123-130 | the third loop computes Roots |
| `GraphCreator.MakeGraph` | src/input_managing/graph_creator.cpp:30-133 | the three passes compute Graph |

## Left out

- Wall-clock time limits. `schedule.py` reads `perf_counter` at 192-194 and 280-284, and `elastic_resource_scheduler.cpp` derives a time limit at 109-127. The model replaces the clock with an oracle sequence of booleans; `PlacementSearch.Search.CheckTimeLimit` consumes one element per reading.
- PlacementSearch.Search.PlaceNodesRecursively: the recursion takes a `fuel` bound and fails with "Out of fuel" when it runs out. The same holds for `PlaceInNextRun` and `FindNextModulePlacement`. The source recurses without bound, so the model says nothing about runs that would need more fuel.
- Preprocessing.AddSatisfyingBitstreamLocationsToGraph: the unbounded worklist of `add_satisfying_bitstream_locations_to_graph` takes a `fuel` bound and fails with "Out of fuel".
- Preprocessing.AddSatisfyingBitstreamLocationsToGraph: the contract says that a changed locations list holds the start locations of the bitstreams adequate for some requirement of the node's operation. It does not say that this requirement is the node's own minimum requirement when it was popped, or which nodes were dropped. `Preprocessing.AttachLocations` and `Preprocessing.DropSatisfied` state both for each step.
- SchedulingHelper.SetAllNodesAsProcessedAfterGivenNode: the erase/insert worklist takes a `fuel` bound. Termination is proved for the graphs the fuel covers, not for every acyclic graph.
- ResourceScheduler.FindFrom: the pre-order search takes a depth bound and fails with "Search depth exceeded" beyond it. The source recurses until it runs out of stack.
- RunHelpers.DataSensitive: the recursion takes a `fuel` bound, and running out stands for Python's `RecursionError`.
- FilterSetup.SetupFilterModule, FilterSetup.FilterModuleTrace, FilterSetup.ModuleTrace, FilterSetup.PassthroughTrace, FilterSetup.SetAllComparisons: a failure carries only the exception's message. The driver calls the source issues before it throws are not part of the result: `ResetDNFStates`, `FilterSetStreamIDs` and the mode writes before "Unkown filter size!" (filter_setup.cpp:59-77, 130-152), and the comparison blocks already written before an `out_of_range` in `SetAllComparisons`.
- TableFlow.BlockingCopiesExact, TableFlow.PartialCopiesExact, TableFlow.BlockingCopyNamesExact, TableFlow.PartialCopyNamesExact: the table-by-table results are stated for inputs none of which is another input's copy name (`FreshCopyNames`). Otherwise a copy written earlier in the loop can be read again as a later input; `SortedCopies` still gives the result.
- FilterSetup.Walk: where the counter of `GetCapacityRequirement` comes back to a block it has read (a negative comparison count can step it backwards), the source's loop never ends. The model stops after as many blocks as there are parameter vectors and returns `Failure("Non-terminating")`. `FilterSetup.WalkOutcome` and `FilterSetup.LongWalkLoops` show that this failure is returned exactly when no step budget would end the walk.
- Signed 32-bit overflow of the C++ `int` arithmetic is not modelled, because Dafny integers are unbounded. Where the source would overflow, which is undefined behaviour, the model goes on computing with the exact value. This affects the filter counter `1 + count * 4` (`FilterSetup.CapacityStep`), the record-count arithmetic of `QueryManager.CropStatus` and `BlockingSort.UpdateDataTable`, and the channel sizes `i * 64` of `ResourceScheduler.ChannelSizes`.
- Floating-point scoring. `find_utility`, `max_utility_per_frames` and the plan choice (`schedule.py` 1317-1419 and 1835-1848), the selectivity scaling of streamed sizes (`schedule.py` 810-811) and the cost-based time limit (`elastic_resource_scheduler.cpp` 53-75) compute with floats and are not modelled.
- File, CSV, JSON and memory I/O are not modelled. This covers `ConfigCreator::GetConfig`, the JSON reader behind `GraphCreator::MakeGraph` (the model starts from the parsed input definition), the data and memory managers, and the bitstream loading of `query_manager.cpp`.
- The print functions and `main` of `schedule.py` (1248-1312 and from 1502) only print or drive benchmarks, and are not modelled.
- The skipped-placement statistics counters of `get_chosen_module_placements` (`schedule.py` 373-377) are not modelled. They feed only printed statistics.
- Hardware drivers are not modelled. The filter and DMA setups are modelled as the ordered logs of calls they make on `FilterInterface` and `DMAInterface`. The register effect of each call is not modelled.
- `DMACrossbarSetup` (the crossbar finder) is not part of this model. `DmaSetup.SetupDmaModule` takes it as a parameter.
- Collaborators whose bodies are not part of this model are parameters: `kSupportedFunctions`, `AcceleratorLibraryInterface::GetNodeCapacity` and `GetEmptyModuleNode`, `QueryManagerInterface::GetRecordSizeFromParameters` and `SetupAccelerationNodesForExecution`, and the bitstream configuration helper (`QueryManager.ConfigHelper`).
- BitstreamConfigHelper (`GetConfigCompliments`, `GetOldNonOverlappingModules`, `GetResultingConfig`) is not part of this model. `QueryManager.ConfigHelper` holds its three functions as unconstrained parameters. `QueryManager.GetPRBitstreamsToLoadWithPassthroughModules` is therefore proved for every helper, and nothing is stated about what the helper returns.
- Splitting nodes, whose one output stream feeds several successors, are not modelled. The source collects them as extra first nodes (`execution_manager.cpp` 396-433 and `schedule.py` 1231-1244). The placement search takes its set of first nodes as an input.
- `SortDataTableWhileMinimizingMajorRuns` (`blocking_sort_module_setup.cpp` 144) is only reached from a commented-out call, and its body does nothing. It is not modelled.
- `UpdateAvailableNodesAfterSchedulingGivenNode` (`query_scheduling_helper.cpp` 150-158) is modelled inside `SchedulingHelper.SetAllNodesAsProcessedAfterGivenNode`, its only caller, and not as a member of its own.
- `FindNewAvailableNodes` (`elastic_resource_scheduler.cpp` 388-402) is only reached from a commented-out call and is not modelled.
- Python dicts and lists are values in the model. Aliasing is therefore not modelled. The guards that detect unexpected aliasing (the `raise ValueError("Something went wrong!")` at `schedule.py` 540) cannot fire in the model.
- Concurrency does not occur in the core. The FSM, the factories and the execution of runs on the FPGA are not modelled.
