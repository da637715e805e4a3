/**
 * The interactive quicksort engine: a resumable state machine that sorts a list
 * of items with pairwise answers from a person instead of a comparator. Each
 * answer is recorded as a relation on both items; a partition is split once
 * every item in it is related to its pivot; pending partitions wait on an
 * explicit stack instead of the call stack.
 */
module QuickSortLogic {
  import opened SortItems
  import opened QuickSortPartition

  datatype StepType = ChoosingPivot | Done

  /** The walk state: the working list, the partition under way and the partitions still to do. */
  datatype QuickSortState = QuickSortState(
    items: seq<SortItem>,
    left: int,
    right: int,
    pivotIdx: int,
    compareIdx: int,
    stepType: StepType,
    partitionStack: seq<(int, int)>)

  /** Every pending partition lies inside a list of `n` items and holds at least two of them. */
  predicate ValidStack(stack: seq<(int, int)>, n: int) {
    forall k :: 0 <= k < |stack| ==> 0 <= stack[k].0 < stack[k].1 < n
  }

  /** While a question is pending, every index the engine reads lies inside the list. */
  predicate ValidState(s: QuickSortState) {
    s.stepType == ChoosingPivot ==>
      && 0 <= s.left <= s.pivotIdx <= s.right < |s.items|
      && s.left < s.right
      && s.left <= s.compareIdx <= s.right
      && ValidStack(s.partitionStack, |s.items|)
  }

  /**
   * The partitions still to be resolved, the one under way last: the stack as
   * the source keeps it, with the current partition on top.
   */
  function Pending(s: QuickSortState): seq<(int, int)> {
    if s.stepType == Done then [] else s.partitionStack + [(s.left, s.right)]
  }

  /** The terminal state: whole-list bounds, indices reset, nothing pending. */
  function DoneState(items: seq<SortItem>): (s: QuickSortState)
    ensures ValidState(s) && Pending(s) == [] && s.items == items
    ensures s.stepType == Done && s.partitionStack == []
    ensures s.left == 0 && s.right == |items| - 1 && s.pivotIdx == 0 && s.compareIdx == 0
  {
    QuickSortState(items, 0, |items| - 1, 0, 0, Done, [])
  }

  // ---------------------------------------------------------------------------
  // Choosing the next question

  /**
   * The lowest index in `[left, right]`, other than `pivotIdx`, whose item has
   * no recorded relation with the pivot; -1 when there is none.
   */
  function NextCompare(items: seq<SortItem>, left: int, right: int, pivotIdx: int): (r: int)
    requires 0 <= left && right < |items| && 0 <= pivotIdx < |items|
    decreases right - left + 1
    ensures r == -1 || (left <= r <= right && r != pivotIdx && !HasRelation(items[r], items[pivotIdx]))
    ensures r != -1 ==> forall k :: left <= k < r && k != pivotIdx ==> HasRelation(items[k], items[pivotIdx])
    ensures r == -1 <==> forall k :: left <= k <= right && k != pivotIdx ==> HasRelation(items[k], items[pivotIdx])
  {
    if left > right then -1
    else if left != pivotIdx && !HasRelation(items[left], items[pivotIdx]) then left
    else NextCompare(items, left + 1, right, pivotIdx)
  }

  /** The ascending scan of findNextCompare. */
  method FindNextCompare(items: seq<SortItem>, left: int, right: int, pivotIdx: int) returns (r: int)
    requires 0 <= left && right < |items| && 0 <= pivotIdx < |items|
    ensures r == NextCompare(items, left, right, pivotIdx)
  {
    var i := left;
    while i <= right
      invariant left <= i
      invariant NextCompare(items, i, right, pivotIdx) == NextCompare(items, left, right, pivotIdx)
    {
      if i != pivotIdx && !HasRelation(items[i], items[pivotIdx]) {
        return i;
      }
      i := i + 1;
    }
    return -1;
  }

  // ---------------------------------------------------------------------------
  // Starting a sort

  /** The midpoint pivot of `[left, right]`, rounded down. */
  function Midpoint(left: int, right: int): int
    requires 0 <= left <= right
  {
    (left + right) / 2
  }

  /** The question to ask first in `[left, right]`: the lowest unresolved index, or `left`. */
  function FirstCompare(items: seq<SortItem>, left: int, right: int, pivotIdx: int): (c: int)
    requires 0 <= left <= pivotIdx <= right < |items|
    ensures left <= c <= right
    ensures NextCompare(items, left, right, pivotIdx) != -1 ==> c == NextCompare(items, left, right, pivotIdx)
    ensures NextCompare(items, left, right, pivotIdx) == -1 ==> c == left
  {
    var c := NextCompare(items, left, right, pivotIdx);
    if c == -1 then left else c
  }

  /**
   * The starting state: terminal for fewer than two items, otherwise the whole
   * list as one partition around its midpoint.
   */
  function InitializeSort(items: seq<SortItem>): (s: QuickSortState)
    ensures ValidState(s) && s.items == items && s.left == 0 && s.right == |items| - 1
    ensures s.stepType == Done <==> |items| <= 1
    ensures s.stepType == Done ==> s.partitionStack == [] && s.pivotIdx == 0 && s.compareIdx == 0
    ensures s.stepType == ChoosingPivot ==>
      && Pending(s) == [(0, |items| - 1)]
      && s.pivotIdx == (|items| - 1) / 2
      && (NextCompare(items, 0, |items| - 1, s.pivotIdx) != -1 ==>
            s.compareIdx == NextCompare(items, 0, |items| - 1, s.pivotIdx))
      && (NextCompare(items, 0, |items| - 1, s.pivotIdx) == -1 ==> s.compareIdx == 0)
  {
    if |items| == 0 then
      QuickSortState([], 0, -1, 0, 0, Done, [])
    else if |items| == 1 then
      QuickSortState(items, 0, 0, 0, 0, Done, [])
    else
      var left, right := 0, |items| - 1;
      var pivotIdx := Midpoint(left, right);
      QuickSortState(items, left, right, pivotIdx, FirstCompare(items, left, right, pivotIdx), ChoosingPivot, [])
  }

  // ---------------------------------------------------------------------------
  // Moving on to the next partition

  /** The sides of a split partition left to sort, the right one deferred first: those holding two or more items. */
  function Remainders(left: int, pivot: int, right: int): seq<(int, int)> {
    (if pivot + 1 < right then [(pivot + 1, right)] else []) + (if left < pivot - 1 then [(left, pivot - 1)] else [])
  }

  /**
   * transitionToNextPartition: after the pivot of `[left, right]` settled at
   * `finalPivotIdx`, defer the right remainder on the stack if it holds two or
   * more items, then descend into the left remainder if it holds two or more,
   * else resume the most recently deferred partition, else finish.
   */
  function TransitionToNextPartition(
    items: seq<SortItem>, finalPivotIdx: int, left: int, right: int, partitionStack: seq<(int, int)>
  ): (s: QuickSortState)
    requires 0 <= left <= finalPivotIdx <= right < |items|
    requires ValidStack(partitionStack, |items|)
    ensures ValidState(s) && s.items == items
    ensures Pending(s) == partitionStack + Remainders(left, finalPivotIdx, right)
    ensures s.stepType == Done ==> s == DoneState(items)
    ensures s.stepType == ChoosingPivot ==>
      && s.pivotIdx == (s.left + s.right) / 2
      && s.compareIdx == FirstCompare(items, s.left, s.right, s.pivotIdx)
  {
    var newStack := if finalPivotIdx + 1 < right then partitionStack + [(finalPivotIdx + 1, right)] else partitionStack;
    assert ValidStack(newStack, |items|);
    if left < finalPivotIdx - 1 then
      var nextLeft, nextRight := left, finalPivotIdx - 1;
      var nextPivot := Midpoint(nextLeft, nextRight);
      QuickSortState(items, nextLeft, nextRight, nextPivot, FirstCompare(items, nextLeft, nextRight, nextPivot),
                     ChoosingPivot, newStack)
    else if |newStack| > 0 then
      var (nextLeft, nextRight) := newStack[|newStack| - 1];
      var nextPivot := Midpoint(nextLeft, nextRight);
      assert newStack == newStack[..|newStack| - 1] + [(nextLeft, nextRight)];
      QuickSortState(items, nextLeft, nextRight, nextPivot, FirstCompare(items, nextLeft, nextRight, nextPivot),
                     ChoosingPivot, newStack[..|newStack| - 1])
    else
      DoneState(items)
  }

  // ---------------------------------------------------------------------------
  // Taking one answer

  /**
   * The working list once the answer is recorded on both items: when the pivot
   * is bigger, the compared item is known before the pivot; otherwise after it.
   * The pivot is updated first, so a compared item that is the pivot itself
   * receives both entries.
   */
  function RecordAnswer(items: seq<SortItem>, pivotIdx: int, compareIdx: int, pivotIsBigger: bool): (r: seq<SortItem>)
    requires 0 <= pivotIdx < |items| && 0 <= compareIdx < |items|
    ensures WithoutRelations(r) == WithoutRelations(items)
    ensures forall k :: 0 <= k < |items| && k != pivotIdx && k != compareIdx ==> r[k] == items[k]
    ensures pivotIdx != compareIdx && pivotIsBigger ==>
      r[pivotIdx] == AddBefore(items[pivotIdx], items[compareIdx].uuid) &&
      r[compareIdx] == AddAfter(items[compareIdx], items[pivotIdx].uuid)
    ensures pivotIdx != compareIdx && !pivotIsBigger ==>
      r[pivotIdx] == AddAfter(items[pivotIdx], items[compareIdx].uuid) &&
      r[compareIdx] == AddBefore(items[compareIdx], items[pivotIdx].uuid)
    ensures pivotIdx == compareIdx && pivotIsBigger ==>
      r[pivotIdx] == AddAfter(AddBefore(items[pivotIdx], items[pivotIdx].uuid), items[pivotIdx].uuid)
    ensures pivotIdx == compareIdx && !pivotIsBigger ==>
      r[pivotIdx] == AddBefore(AddAfter(items[pivotIdx], items[pivotIdx].uuid), items[pivotIdx].uuid)
  {
    var pivotUuid, compareUuid := items[pivotIdx].uuid, items[compareIdx].uuid;
    if pivotIsBigger then
      var withPivot := items[pivotIdx := AddBefore(items[pivotIdx], compareUuid)];
      withPivot[compareIdx := AddAfter(withPivot[compareIdx], pivotUuid)]
    else
      var withPivot := items[pivotIdx := AddAfter(items[pivotIdx], compareUuid)];
      withPivot[compareIdx := AddBefore(withPivot[compareIdx], pivotUuid)]
  }

  /**
   * advanceSort as a function of the state and the answer: a terminal state is
   * returned unchanged; otherwise the answer is recorded, and either the next
   * question of the same partition is asked, or the partition is finished (by
   * the fully-ordered fast path or by partition) and the walk moves on.
   */
  function Advance(state: QuickSortState, pivotIsBigger: bool): (r: QuickSortState)
    requires ValidState(state)
    ensures ValidState(r) && |r.items| == |state.items|
    ensures state.stepType == Done ==> r == state
    ensures multiset(WithoutRelations(r.items)) == multiset(WithoutRelations(state.items))
  {
    if state.stepType == Done then state
    else
      var newItems := RecordAnswer(state.items, state.pivotIdx, state.compareIdx, pivotIsBigger);
      var nextCompare := NextCompare(newItems, state.left, state.right, state.pivotIdx);
      if nextCompare == -1 then
        if FullyOrdered(newItems, state.left, state.right) then
          var sorted := SortByRelations(newItems);
          SameItemsWithoutRelations(sorted, newItems);
          if |state.partitionStack| > 0 then
            TransitionToNextPartition(sorted, state.pivotIdx, state.left, state.right, state.partitionStack)
          else
            DoneState(sorted)
        else
          var parted := PartitionResult(newItems, state.left, state.right, state.pivotIdx);
          PartitionKeepsItems(newItems, state.left, state.right, state.pivotIdx);
          TransitionToNextPartition(parted.0, parted.1, state.left, state.right, state.partitionStack)
      else
        state.(items := newItems, compareIdx := nextCompare)
  }

  /**
   * An answer after which the partition still holds an item unrelated to the
   * pivot: the same partition, pivot and stack, the answer recorded, and the
   * next question about the lowest such item.
   */
  lemma AdvanceAsksNext(state: QuickSortState, pivotIsBigger: bool)
    requires ValidState(state) && state.stepType == ChoosingPivot
    requires exists k :: (state.left <= k <= state.right && k != state.pivotIdx &&
      !HasRelation(RecordAnswer(state.items, state.pivotIdx, state.compareIdx, pivotIsBigger)[k],
                   RecordAnswer(state.items, state.pivotIdx, state.compareIdx, pivotIsBigger)[state.pivotIdx]))
    ensures var r := Advance(state, pivotIsBigger);
      && r.stepType == ChoosingPivot
      && r.items == RecordAnswer(state.items, state.pivotIdx, state.compareIdx, pivotIsBigger)
      && r.left == state.left && r.right == state.right && r.pivotIdx == state.pivotIdx
      && r.partitionStack == state.partitionStack
      && r.compareIdx == NextCompare(r.items, r.left, r.right, r.pivotIdx)
      && r.left <= r.compareIdx <= r.right && r.compareIdx != r.pivotIdx
      && !HasRelation(r.items[r.compareIdx], r.items[r.pivotIdx])
      && forall k :: r.left <= k < r.compareIdx && k != r.pivotIdx ==> HasRelation(r.items[k], r.items[r.pivotIdx])
  {
  }

  /**
   * The last answer of a partition whose recorded relations fix its whole
   * order: the list is put in that order, and the walk stops when nothing
   * else is pending, otherwise moves on as after a partition around the
   * pivot's index.
   */
  lemma AdvanceFinishesOrdered(state: QuickSortState, pivotIsBigger: bool)
    requires ValidState(state) && state.stepType == ChoosingPivot
    requires forall k :: state.left <= k <= state.right && k != state.pivotIdx ==>
      HasRelation(RecordAnswer(state.items, state.pivotIdx, state.compareIdx, pivotIsBigger)[k],
                  RecordAnswer(state.items, state.pivotIdx, state.compareIdx, pivotIsBigger)[state.pivotIdx])
    requires FullyOrdered(RecordAnswer(state.items, state.pivotIdx, state.compareIdx, pivotIsBigger), state.left, state.right)
    ensures var sorted := SortByRelations(RecordAnswer(state.items, state.pivotIdx, state.compareIdx, pivotIsBigger));
      && Advance(state, pivotIsBigger).items == sorted
      && (state.partitionStack == [] ==> Advance(state, pivotIsBigger) == DoneState(sorted))
      && (state.partitionStack != [] ==>
            Advance(state, pivotIsBigger) == TransitionToNextPartition(sorted, state.pivotIdx, state.left, state.right, state.partitionStack))
  {
    var items := RecordAnswer(state.items, state.pivotIdx, state.compareIdx, pivotIsBigger);
    assert NextCompare(items, state.left, state.right, state.pivotIdx) == -1;
  }

  /**
   * The last answer of a partition whose order is not yet fixed: the list is
   * partitioned around the pivot and the walk moves on from the pivot's final index.
   */
  lemma AdvancePartitions(state: QuickSortState, pivotIsBigger: bool)
    requires ValidState(state) && state.stepType == ChoosingPivot
    requires forall k :: state.left <= k <= state.right && k != state.pivotIdx ==>
      HasRelation(RecordAnswer(state.items, state.pivotIdx, state.compareIdx, pivotIsBigger)[k],
                  RecordAnswer(state.items, state.pivotIdx, state.compareIdx, pivotIsBigger)[state.pivotIdx])
    requires !FullyOrdered(RecordAnswer(state.items, state.pivotIdx, state.compareIdx, pivotIsBigger), state.left, state.right)
    ensures var parted := PartitionResult(RecordAnswer(state.items, state.pivotIdx, state.compareIdx, pivotIsBigger),
                                          state.left, state.right, state.pivotIdx);
      Advance(state, pivotIsBigger) == TransitionToNextPartition(parted.0, parted.1, state.left, state.right, state.partitionStack)
  {
  }

  /** advanceSort, on a copy of the working list that it updates and partitions in place. */
  method AdvanceSort(state: QuickSortState, pivotIsBigger: bool) returns (r: QuickSortState)
    requires ValidState(state)
    ensures r == Advance(state, pivotIsBigger)
  {
    if state.stepType == Done {
      return state;
    }
    var n := |state.items|;
    var newItems := new SortItem[n](k requires 0 <= k < n => state.items[k]);
    assert newItems[..] == state.items;
    var pivotItem := newItems[state.pivotIdx];
    var compareItem := newItems[state.compareIdx];
    if pivotIsBigger {
      newItems[state.pivotIdx] := AddBefore(newItems[state.pivotIdx], compareItem.uuid);
      newItems[state.compareIdx] := AddAfter(newItems[state.compareIdx], pivotItem.uuid);
    } else {
      newItems[state.pivotIdx] := AddAfter(newItems[state.pivotIdx], compareItem.uuid);
      newItems[state.compareIdx] := AddBefore(newItems[state.compareIdx], pivotItem.uuid);
    }
    assert newItems[..] == RecordAnswer(state.items, state.pivotIdx, state.compareIdx, pivotIsBigger);
    var nextCompare := FindNextCompare(newItems[..], state.left, state.right, state.pivotIdx);
    if nextCompare == -1 {
      var ordered := IsPartitionFullyOrdered(newItems[..], state.left, state.right);
      if ordered {
        var sorted := SortByRelations(newItems[..]);
        if |state.partitionStack| > 0 {
          return TransitionToNextPartition(sorted, state.pivotIdx, state.left, state.right, state.partitionStack);
        }
        return DoneState(sorted);
      }
      var finalPivotIdx := Partition(newItems, state.left, state.right, state.pivotIdx);
      return TransitionToNextPartition(newItems[..], finalPivotIdx, state.left, state.right, state.partitionStack);
    }
    return state.(items := newItems[..], compareIdx := nextCompare);
  }
}
