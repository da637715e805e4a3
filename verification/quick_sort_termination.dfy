/**
 * Termination for any answers. Whatever the person clicks, consistent or
 * not, the walk reaches its terminal state, and the number of questions is
 * bounded by the size of the list. Relations are only ever added. Each
 * question is about an item not yet related to the pivot, unless none is
 * left. Each finished partition is replaced by strictly smaller ranges.
 */
module QuickSortTermination {
  import opened SortItems
  import opened QuickSortPartition
  import opened QuickSortLogic
  import opened QuickSortRun

  /**
   * The pending question is worth asking. Either it is about an item other
   * than the pivot that has no relation to it yet, or every item of the
   * partition is already related to the pivot, and the question is the
   * fallback to `left`.
   */
  predicate Asks(s: QuickSortState) {
    && ValidState(s)
    && (s.stepType == ChoosingPivot ==>
          || (s.compareIdx != s.pivotIdx && !HasRelation(s.items[s.compareIdx], s.items[s.pivotIdx]))
          || NextCompare(s.items, s.left, s.right, s.pivotIdx) == -1)
  }

  /** A partition whose items are all related to the pivot stays so once relations are added. */
  lemma AllRelatedStays(items: seq<SortItem>, items1: seq<SortItem>, left: int, right: int, pivotIdx: int)
    requires 0 <= left && right < |items| == |items1| && 0 <= pivotIdx < |items|
    requires forall k :: 0 <= k < |items| ==> Extends(items1[k], items[k])
    requires NextCompare(items, left, right, pivotIdx) == -1
    ensures NextCompare(items1, left, right, pivotIdx) == -1
  {
    forall k | left <= k <= right && k != pivotIdx ensures HasRelation(items1[k], items1[pivotIdx]) {
      ExtendsKeepsRelation(items[k], items[pivotIdx], items1[k], items1[pivotIdx]);
    }
  }

  /** Every answer, whichever it is, keeps the next question worth asking and lowers the measure. */
  lemma AnyAnswerLowersMeasure(s: QuickSortState, pivotIsBigger: bool)
    requires Asks(s) && s.stepType == ChoosingPivot
    ensures Asks(Advance(s, pivotIsBigger))
    ensures Measure(Advance(s, pivotIsBigger)) < Measure(s)
  {
    var next := Advance(s, pivotIsBigger);
    var items := RecordAnswer(s.items, s.pivotIdx, s.compareIdx, pivotIsBigger);
    RecordExtends(s.items, s.pivotIdx, s.compareIdx, pivotIsBigger);
    if NextCompare(s.items, s.left, s.right, s.pivotIdx) == -1 {
      AllRelatedStays(s.items, items, s.left, s.right, s.pivotIdx);
    }
    if exists k :: s.left <= k <= s.right && k != s.pivotIdx && !HasRelation(items[k], items[s.pivotIdx]) {
      AdvanceAsksNext(s, pivotIsBigger);
      assert HasRelation(items[s.compareIdx], items[s.pivotIdx]);
      UnresolvedShrinks(s.items, items, s.left, s.right, s.pivotIdx, s.compareIdx);
      MeasureSamePartition(s, next);
    } else if FullyOrdered(items, s.left, s.right) {
      AdvanceFinishesOrdered(s, pivotIsBigger);
      MeasureBelowPending(next);
      if s.partitionStack != [] {
        SplitMeasure(s, next, s.pivotIdx);
      } else {
        MeasureAbovePending(s);
      }
    } else {
      AdvancePartitions(s, pivotIsBigger);
      MeasureBelowPending(next);
      SplitMeasure(s, next, PartitionResult(items, s.left, s.right, s.pivotIdx).1);
    }
  }

  /** The first question of any session is worth asking, and the measure starts below `n * n + n`. */
  lemma InitAsks(input: seq<SortItem>)
    ensures Asks(InitializeSort(input))
    ensures Measure(InitializeSort(input)) <= |input| * |input| + |input|
  {
  }

  /**
   * A whole session driven by arbitrary answers: the `k`-th click is
   * `answers(k)`. The walk reaches its terminal state after at most
   * `n * n + n` answers, with the same items, apart from the relations
   * recorded on them.
   */
  method AnswerAll(input: seq<SortItem>, answers: nat -> bool) returns (final: QuickSortState, steps: nat)
    ensures final.stepType == Done
    ensures multiset(WithoutRelations(final.items)) == multiset(WithoutRelations(input))
    ensures steps <= |input| * |input| + |input|
  {
    var state := InitializeSort(input);
    InitAsks(input);
    steps := 0;
    while state.stepType == ChoosingPivot
      invariant Asks(state)
      invariant multiset(WithoutRelations(state.items)) == multiset(WithoutRelations(input))
      invariant steps + Measure(state) <= |input| * |input| + |input|
      decreases Measure(state)
    {
      AnyAnswerLowersMeasure(state, answers(steps));
      state := AdvanceSort(state, answers(steps));
      steps := steps + 1;
    }
    return state, steps;
  }
}
