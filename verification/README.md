# Interactive quicksort engine, modelled and verified in Dafny

The manual-sort app sorts a list of text items by asking a person which of two
items is bigger. It does not use a comparator. The engine in
`src/app/quickSortLogic.ts` is a resumable state machine:

- It keeps a walk state: the working list, the partition under way
  (`left`, `right`), its pivot, the item being compared with the pivot, and an
  explicit stack of partitions still to sort.
- Each answer is recorded as a before/after relation on both items.
- A partition is finished once every item in it is related to its pivot. If the
  recorded relations already fix the partition's whole order, the list is sorted
  by those relations (the fast path). Otherwise the list is partitioned in place
  around the pivot.
- The walk then moves depth-first and left-first to the next partition. It ends
  in a terminal state once nothing is pending.

The project has five modules:

- `SortItems` (`sort_items.dfy`): the item record, the relation queries, and swaps.
- `QuickSortPartition` (`quick_sort_partition.dfy`): the in-place Lomuto
  partition, the fully-ordered check, and the fast-path sort.
- `QuickSortLogic` (`quick_sort_logic.dfy`): the walk state, choosing the next
  question, starting a sort, moving to the next partition, and taking one answer.
- `QuickSortRun` (`quick_sort_run.dfy`): a whole sorting session with truthful answers.
- `QuickSortTermination` (`quick_sort_termination.dfy`): a whole sorting session with arbitrary answers.

The session result is this. A person who answers every question truthfully from
a fixed strict order drives the engine from `initializeSort` to the terminal
state. At that point the list is in ascending order and holds the items it
started with, apart from the relations recorded on them.

Termination does not depend on the answers. Whatever the person clicks,
consistent or not, the engine reaches the terminal state after at most
`n * n + n` answers for a list of `n` items.

Each loop of the source is a method proved against a specification function:

- `FindNextCompare` against `NextCompare`;
- `IsPartitionFullyOrdered` against `FullyOrdered`;
- `Partition`, which works on an `array`, against `PartitionResult`;
- `AdvanceSort` against `Advance`.

`initializeSort` and `transitionToNextPartition` only build new records, so they
are modelled as functions.

## Model

| member | source | states |
|---|---|---|
| SortItems.AddBefore | src/app/quickSortLogic.ts:231-235 | appending an identifier to an item's "before" list keeps its identifier, its text and its "after" list |
| SortItems.AddAfter | src/app/quickSortLogic.ts:231-235 | appending an identifier to an item's "after" list keeps its identifier, its text and its "before" list |
| SortItems.Swap | src/app/quickSortLogic.ts:109 | a destructuring swap exchanges the two entries and leaves every other entry unchanged |
| SortItems.SwapPermutes | src/app/quickSortLogic.ts:117 | a swap keeps the same items (multiset) |
| SortItems.SameItemsWithoutRelations | src/app/quickSortLogic.ts:99-129 | two lists holding the same items still hold the same items once relations are cleared |
| SortItems.SameItemsDistinct | src/app/quickSortLogic.ts:99-129 | a rearranged list keeps its identifiers distinct |
| QuickSortLogic.DoneState | src/app/quickSortLogic.ts:196-204 | the terminal state is `Done` over the whole list (`left = 0`, `right = n-1`), with pivot and compare indices 0 and an empty stack; it keeps the list, is well formed, and has nothing pending |
| QuickSortLogic.NextCompare | src/app/quickSortLogic.ts:28-48 | the result is -1 exactly when every index of `[left, right]` other than the pivot has a relation with the pivot in one of the four directions; otherwise it is the lowest index in `[left, right]` that is not the pivot and has no relation with it |
| QuickSortLogic.FindNextCompare | src/app/quickSortLogic.ts:28-48 | the ascending scan returns exactly `NextCompare` |
| QuickSortLogic.FirstCompare | src/app/quickSortLogic.ts:167-175 | the first question of a partition is about `NextCompare`'s index when there is one, and about `left` otherwise |
| QuickSortLogic.InitializeSort | src/app/quickSortLogic.ts:54-93 | for 0 or 1 items: `Done` with an empty stack, `right = n-1`, pivot and compare indices 0, and the input list. For 2 or more: `ChoosingPivot` over `[0, n-1]`, floor-midpoint pivot, first question per `FirstCompare`, empty stack |
| QuickSortLogic.TransitionToNextPartition | src/app/quickSortLogic.ts:151-206 | the pending partitions afterwards are the stack, then `(p+1, right)` if `p+1 < right`, then `(left, p-1)` if `left < p-1`; the top one becomes current (so: descend left, else pop, else finish). A new partition gets a midpoint pivot and its first question. The finished state is `Done` over the whole list with indices 0 and an empty stack. The list is unchanged |
| QuickSortLogic.RecordAnswer | src/app/quickSortLogic.ts:229-236 | if the pivot is bigger, the compared item's identifier goes to the pivot's "before" list and the pivot's to the compared item's "after" list; otherwise the reverse. When the question is about the pivot itself, the pivot gets both entries, in the source's push order. No other item changes, and clearing relations gives back the old list |
| QuickSortLogic.Advance | src/app/quickSortLogic.ts:212-266 | a `Done` state is returned unchanged; every result is well formed and holds the same items as the input (multiset, relations cleared) |
| QuickSortLogic.AdvanceAsksNext | src/app/quickSortLogic.ts:238-265 | while an unrelated item remains, only `items` (the answer recorded) and `compareIdx` (`NextCompare`'s index) change; the partition, the pivot, the stack and `ChoosingPivot` stay |
| QuickSortLogic.AdvanceFinishesOrdered | src/app/quickSortLogic.ts:239-258 | on the fast path the list is sorted by the relations; when the stack is empty the result is exactly the terminal state over the sorted list, otherwise the walk moves on around the pivot's index |
| QuickSortLogic.AdvancePartitions | src/app/quickSortLogic.ts:261-262 | otherwise the list is partitioned around the pivot, and the walk moves on from the pivot's final index |
| QuickSortLogic.AdvanceSort | src/app/quickSortLogic.ts:212-266 | the method, which updates a copied array and partitions it in place, returns exactly `Advance` |
| QuickSortPartition.PartitionScan | src/app/quickSortLogic.ts:112-120 | the scan keeps the list's length, and the returned store index lies between the start store and `right` |
| QuickSortPartition.PartitionScanPermutes | src/app/quickSortLogic.ts:112-120 | the scan keeps the same items |
| QuickSortPartition.PartitionScanKeepsOutside | src/app/quickSortLogic.ts:112-120 | the scan leaves entries before the store index and from `right` on unchanged |
| QuickSortPartition.PartitionScanSplits | src/app/quickSortLogic.ts:112-120 | after the scan, `[left, store)` holds the items recorded before the pivot and `[store, right)` holds none |
| QuickSortPartition.PartitionResult | src/app/quickSortLogic.ts:99-129 | the returned index lies in `[left, right]` and the list keeps its length |
| QuickSortPartition.PartitionPermutes | src/app/quickSortLogic.ts:99-129 | partition yields a permutation of its input, and every entry outside `[left, right]` is unchanged |
| QuickSortPartition.PartitionSplits | src/app/quickSortLogic.ts:99-129 | the returned index holds the original pivot item. Every item in `[left, storeIdx)` passes the small-side test: the pivot's "before" list contains it, or its "after" list contains the pivot. No item in `(storeIdx, right]` passes |
| QuickSortPartition.PartitionKeepsItems | src/app/quickSortLogic.ts:99-129 | partition keeps the items (relations cleared) and keeps identifiers distinct |
| QuickSortPartition.Partition | src/app/quickSortLogic.ts:99-129 | the in-place partition on an array leaves exactly `PartitionResult`'s list and returns its index |
| QuickSortPartition.IsPartitionFullyOrdered | src/app/quickSortLogic.ts:134-146 | the pairwise check returns true exactly when every pair `i < j` of `[left, right]` is recorded in that order |
| QuickSortPartition.InsertByRelations | src/app/quickSortLogic.ts:242-246 | insertion under the relation comparator adds exactly the one item |
| QuickSortPartition.SortByRelations | src/app/quickSortLogic.ts:242-246 | the fast-path sort is a permutation of its input |
| QuickSortPartition.SortByRelationsKeepsAgreeingOrder | src/app/quickSortLogic.ts:242-246 | a list whose every pair already agrees with the comparator is left as it is |
| QuickSortRun.RecordTruthful | src/app/quickSortLogic.ts:229-236 | a truthful answer keeps every recorded relation true to the person's order |
| QuickSortRun.RecordUnrelated | src/app/quickSortLogic.ts:229-236 | the answer relates the asked pair and no other pair of the partition |
| QuickSortRun.RecordStep | src/app/quickSortLogic.ts:229-236 | recording a truthful answer keeps items in place, keeps relations true and keeps the order outside pending partitions. It relates the asked pair and leaves one fewer unrelated item |
| QuickSortRun.UnresolvedShrinks | src/app/quickSortLogic.ts:28-48 | only adding relations never raises the number of unresolved items, and resolving one lowers it |
| QuickSortRun.WiderIsNotOrdered | src/app/quickSortLogic.ts:134-146 | a partition of three or more items, with relations only to the pivot, never passes the fully-ordered check |
| QuickSortRun.FastPathAgrees | src/app/quickSortLogic.ts:239-246 | when the fast path fires in a session, every pair of the list already agrees with the comparator, and the list is in rank order apart from the stack's partitions |
| QuickSortRun.PartitionSource | src/app/quickSortLogic.ts:99-129 | each entry of `[left, right]` after partition comes from that range; it is the pivot exactly at the returned index |
| QuickSortRun.PartitionRanks | src/app/quickSortLogic.ts:112-123 | with every item related to the pivot and relations truthful, partition puts lower-ranked items left of the pivot and higher-ranked items right of it |
| QuickSortRun.PartitionOrdered | src/app/quickSortLogic.ts:99-129 | after partition, two positions that no pending partition holds together are in rank order |
| QuickSortRun.RemaindersDisjoint | src/app/quickSortLogic.ts:158-161 | the pushed sides do not overlap each other or the stack |
| QuickSortRun.SplitCost | src/app/quickSortLogic.ts:159-163 | the two sides of a split cost less together than the partition they came from |
| QuickSortRun.AskNextCase | src/app/quickSortLogic.ts:265 | asking the next question keeps the session invariant and lowers the measure |
| QuickSortRun.FastPathCase | src/app/quickSortLogic.ts:239-258 | finishing a partition on the fast path keeps the session invariant and lowers the measure |
| QuickSortRun.PartitionCase | src/app/quickSortLogic.ts:261-262 | finishing a partition through partition keeps the session invariant and lowers the measure |
| QuickSortRun.StepKeepsInv | src/app/quickSortLogic.ts:212-266 | every truthful answer to a pending question keeps the session invariant and strictly lowers the measure |
| QuickSortRun.InitKeepsInv | src/app/ManualSort.tsx:20-27 | a session starting from reset relations and distinct identifiers starts in the invariant |
| QuickSortRun.SortWithAnswers | src/app/quickSortLogic_test.ts:116-138 | answering every question from a strict order ends in `Done`, with the same items (relations aside) in strictly ascending order |
| QuickSortRun.FastPathItems | src/app/quickSortLogic.ts:242-246 | in a session the fast path fires only on a two-item partition; the sort then leaves the list unchanged, and the items stay distinct, truthful and in rank order outside the stack's partitions |
| QuickSortTermination.AllRelatedStays | src/app/quickSortLogic.ts:28-48 | once every item of a partition is related to the pivot, adding relations keeps it so (`NextCompare` stays -1) |
| QuickSortTermination.AnyAnswerLowersMeasure | src/app/quickSortLogic.ts:212-266 | for either answer, the next question is again about an item not yet related to its pivot (or the partition is all related), and the measure strictly drops |
| QuickSortTermination.InitAsks | src/app/quickSortLogic.ts:54-93 | for any input, the first question is worth asking, and the measure starts at most `n * n + n` |
| QuickSortTermination.AnswerAll | src/app/ManualSort.tsx:20-38 | starting a sort and then applying any sequence of clicks reaches `Done` after at most `n * n + n` answers, with the same items apart from relations |

## Left out

- The `logger` calls (`src/app/quickSortLogic.ts:18-22` and their call sites) have no effect on the result. They are not modelled.
- Identifiers are modelled as natural numbers. The engine only compares them for equality.
- SortByRelations: a stable insertion sort stands in for the host's `Array.prototype.sort` on the fast path, whose algorithm is not fixed. Only two things are claimed for it: it is a permutation, and it leaves a list that already agrees with every recorded relation unchanged. That second case is the only one a session reaches.
- `[...items]` is a shallow copy, so recording an answer in the source also changes the relation lists of the previous state's items. Items here are values, so that sharing is not modelled.
- The presentation layer, persistence, and the random shuffle in the test are not modelled. The sorting screen's "start" handler is modelled only as the precondition of `SortWithAnswers`: relations reset, identifiers distinct.
- SortWithAnswers: the sortedness result covers only a person whose answers follow one strict order (an injective rank on identifiers). With inconsistent answers the final order is not specified. Termination and keeping the items are proved for any answers (`AnswerAll`).
- RecordAnswer: when a partition is entered with every item already related to the pivot, the first question falls back to `left`, which can be the pivot itself. The pivot then gets both entries, as its contract states. The session result does not cover this case, because a session from reset relations never reaches it.
