/**
 * A whole sorting session: a person who answers every question from a fixed
 * strict order drives the engine from its starting state to the terminal
 * state, and the working list ends in that order, holding the same items
 * apart from the relations recorded on them.
 *
 * The person's order is `rank`, injective on identifiers: the pivot is
 * "bigger" exactly when its rank is higher. The session starts from items
 * with no recorded relations, as the sorting screen resets them before a
 * new session begins.
 */
module QuickSortRun {
  import opened SortItems
  import opened QuickSortPartition
  import opened QuickSortLogic

  /** A strict order on identifiers: no two identifiers share a rank. */
  ghost predicate Injective(rank: Uuid -> int) {
    forall u, v :: rank(u) == rank(v) ==> u == v
  }

  /** The answer a person ranking by `rank` gives to the pending question. */
  function Answer(s: QuickSortState, rank: Uuid -> int): bool
    requires ValidState(s) && s.stepType == ChoosingPivot
  {
    rank(s.items[s.pivotIdx].uuid) > rank(s.items[s.compareIdx].uuid)
  }

  // ---------------------------------------------------------------------------
  // What the recorded relations and the list positions say during a session

  /** Every relation recorded on `x` agrees with `rank`. */
  ghost predicate TruthfulItem(x: SortItem, rank: Uuid -> int) {
    && (forall u :: u in x.relations.uuidsBefore ==> rank(u) < rank(x.uuid))
    && (forall u :: u in x.relations.uuidsAfter ==> rank(u) > rank(x.uuid))
  }

  ghost predicate Truthful(items: seq<SortItem>, rank: Uuid -> int) {
    forall k :: 0 <= k < |items| ==> TruthfulItem(items[k], rank)
  }

  /** Some pending partition holds both positions `i` and `j`. */
  predicate SameRange(pending: seq<(int, int)>, i: int, j: int) {
    exists range :: range in pending && range.0 <= i && j <= range.1
  }

  /** Pending partitions never overlap. */
  predicate Disjoint(pending: seq<(int, int)>) {
    forall x, y :: 0 <= x < y < |pending| ==> pending[x].1 < pending[y].0 || pending[y].1 < pending[x].0
  }

  /** Two positions that no pending partition holds together are already in rank order. */
  predicate Ordered(items: seq<SortItem>, pending: seq<(int, int)>, rank: Uuid -> int) {
    forall i, j :: 0 <= i < j < |items| && !SameRange(pending, i, j) ==> rank(items[i].uuid) < rank(items[j].uuid)
  }

  /** No two items of `[a, b]`, apart from the one at `except`, have a relation recorded between them. */
  predicate Unrelated(items: seq<SortItem>, a: int, b: int, except: int) {
    forall i, j :: 0 <= a <= i <= b < |items| && a <= j <= b && i != j && i != except && j != except
      ==> !HasRelation(items[i], items[j])
  }

  /** The given partitions carry no relations within them. */
  predicate PendingUnrelated(items: seq<SortItem>, pending: seq<(int, int)>) {
    forall range :: range in pending ==> Unrelated(items, range.0, range.1, -1)
  }

  /**
   * The session invariant: the engine's state is well formed and holds the
   * input's items; every recorded relation is true; pending partitions are
   * disjoint and everything they do not hold together is already in order;
   * the only relations inside pending partitions are the current pivot's;
   * and the pending question asks about a pair not yet related.
   */
  ghost predicate Inv(s: QuickSortState, rank: Uuid -> int, input: seq<SortItem>) {
    && ValidState(s)
    && multiset(WithoutRelations(s.items)) == multiset(WithoutRelations(input))
    && DistinctUuids(s.items)
    && Truthful(s.items, rank)
    && Disjoint(Pending(s))
    && Ordered(s.items, Pending(s), rank)
    && (s.stepType == ChoosingPivot ==>
          && PendingUnrelated(s.items, s.partitionStack)
          && Unrelated(s.items, s.left, s.right, s.pivotIdx)
          && s.compareIdx != s.pivotIdx
          && !HasRelation(s.items[s.compareIdx], s.items[s.pivotIdx]))
  }

  // ---------------------------------------------------------------------------
  // The measure that every answer decreases

  /** The number of items of `[i, right]`, other than the pivot, with no relation to the pivot yet. */
  function Unresolved(items: seq<SortItem>, i: int, right: int, pivotIdx: int): (c: nat)
    requires 0 <= i <= right + 1 && right < |items| && 0 <= pivotIdx < |items|
    decreases right - i + 1
    ensures c <= if i <= pivotIdx <= right then right - i else right - i + 1
  {
    if i > right then 0
    else (if i != pivotIdx && !HasRelation(items[i], items[pivotIdx]) then 1 else 0) + Unresolved(items, i + 1, right, pivotIdx)
  }

  /** What a pending partition of `size` items may still cost: more than a current one can. */
  function RangeCost(range: (int, int)): nat {
    var size := if range.1 >= range.0 then range.1 - range.0 + 1 else 0;
    size * size + size
  }

  function StackCost(stack: seq<(int, int)>): nat {
    if stack == [] then 0 else StackCost(stack[..|stack| - 1]) + RangeCost(stack[|stack| - 1])
  }

  /** The measure: the waiting partitions, the current one, and its unanswered items. */
  function Measure(s: QuickSortState): nat
    requires ValidState(s)
  {
    if s.stepType == Done then 0
    else
      var size := s.right - s.left + 1;
      StackCost(s.partitionStack) + size * size + Unresolved(s.items, s.left, s.right, s.pivotIdx)
  }

  // ---------------------------------------------------------------------------
  // Recording an answer

  /** `y` keeps `x`'s identifier and every relation recorded on `x`. */
  ghost predicate Extends(y: SortItem, x: SortItem) {
    && y.uuid == x.uuid
    && (forall u :: u in x.relations.uuidsBefore ==> u in y.relations.uuidsBefore)
    && (forall u :: u in x.relations.uuidsAfter ==> u in y.relations.uuidsAfter)
  }

  /** Recording an answer only adds relations, to the pivot and to the compared item. */
  lemma RecordExtends(items: seq<SortItem>, pivotIdx: int, compareIdx: int, pivotIsBigger: bool)
    requires 0 <= pivotIdx < |items| && 0 <= compareIdx < |items|
    ensures var r := RecordAnswer(items, pivotIdx, compareIdx, pivotIsBigger);
      |r| == |items| && forall k :: 0 <= k < |items| ==> Extends(r[k], items[k])
  {
  }

  /** A truthful person's answer keeps every recorded relation true. */
  lemma RecordTruthful(items: seq<SortItem>, pivotIdx: int, compareIdx: int, rank: Uuid -> int)
    requires 0 <= pivotIdx < |items| && 0 <= compareIdx < |items| && pivotIdx != compareIdx
    requires DistinctUuids(items) && Truthful(items, rank) && Injective(rank)
    ensures Truthful(RecordAnswer(items, pivotIdx, compareIdx, rank(items[pivotIdx].uuid) > rank(items[compareIdx].uuid)), rank)
  {
    var pu, cu := items[pivotIdx].uuid, items[compareIdx].uuid;
    var r := RecordAnswer(items, pivotIdx, compareIdx, rank(pu) > rank(cu));
    assert rank(pu) != rank(cu);
    forall k | 0 <= k < |r| ensures TruthfulItem(r[k], rank) {
      assert TruthfulItem(items[k], rank);
    }
  }

  /** Lists with the same identifier at every position. */
  predicate SameUuids(a: seq<SortItem>, b: seq<SortItem>) {
    |a| == |b| && forall k :: 0 <= k < |a| ==> a[k].uuid == b[k].uuid
  }

  /** Distinctness and rank order depend on the identifiers alone. */
  lemma SameUuidsKeep(a: seq<SortItem>, b: seq<SortItem>, pending: seq<(int, int)>, rank: Uuid -> int)
    requires SameUuids(a, b)
    ensures DistinctUuids(a) ==> DistinctUuids(b)
    ensures Ordered(a, pending, rank) ==> Ordered(b, pending, rank)
  {
  }

  /** The partitions on the stack lie outside the current one. */
  lemma StackOutsideCurrent(s: QuickSortState)
    requires ValidState(s) && s.stepType == ChoosingPivot && Disjoint(Pending(s))
    ensures forall range :: range in s.partitionStack ==> range.1 < s.left || s.right < range.0
  {
    var n := |s.partitionStack|;
    forall range | range in s.partitionStack ensures range.1 < s.left || s.right < range.0 {
      var k :| 0 <= k < n && s.partitionStack[k] == range;
      assert Pending(s)[k] == range && Pending(s)[n] == (s.left, s.right);
    }
  }

  /** Changing items only inside `[left, right]` keeps partitions outside it free of relations. */
  lemma PendingUnrelatedFrame(items: seq<SortItem>, items1: seq<SortItem>, pending: seq<(int, int)>, left: int, right: int)
    requires |items1| == |items|
    requires forall range :: range in pending ==> range.1 < left || right < range.0
    requires forall k :: 0 <= k < |items| && (k < left || right < k) ==> items1[k] == items[k]
    requires PendingUnrelated(items, pending)
    ensures PendingUnrelated(items1, pending)
  {
    forall range | range in pending ensures Unrelated(items1, range.0, range.1, -1) {
      assert Unrelated(items, range.0, range.1, -1);
    }
  }

  /** The answer relates the compared item to the pivot and relates no other pair of the partition. */
  lemma RecordUnrelated(items: seq<SortItem>, left: int, right: int, pivotIdx: int, compareIdx: int, pivotIsBigger: bool)
    requires 0 <= left <= pivotIdx <= right < |items| && left <= compareIdx <= right && pivotIdx != compareIdx
    requires DistinctUuids(items) && Unrelated(items, left, right, pivotIdx)
    ensures HasRelation(RecordAnswer(items, pivotIdx, compareIdx, pivotIsBigger)[compareIdx],
                        RecordAnswer(items, pivotIdx, compareIdx, pivotIsBigger)[pivotIdx])
    ensures Unrelated(RecordAnswer(items, pivotIdx, compareIdx, pivotIsBigger), left, right, pivotIdx)
  {
    var r := RecordAnswer(items, pivotIdx, compareIdx, pivotIsBigger);
    RecordExtends(items, pivotIdx, compareIdx, pivotIsBigger);
    forall i, j | left <= i <= right && left <= j <= right && i != j && i != pivotIdx && j != pivotIdx
      ensures !HasRelation(r[i], r[j])
    {
      assert !HasRelation(items[i], items[j]);
      assert r[i].uuid != items[pivotIdx].uuid && r[j].uuid != items[pivotIdx].uuid;
    }
  }

  /** Recording relations on top of existing ones keeps every existing relation. */
  lemma ExtendsKeepsRelation(x: SortItem, y: SortItem, x1: SortItem, y1: SortItem)
    requires Extends(x1, x) && Extends(y1, y) && HasRelation(x, y)
    ensures HasRelation(x1, y1)
  {
  }

  /** Relations only added: no more items unresolved than before, and fewer once `c` is resolved. */
  lemma {:induction false} UnresolvedShrinks(items: seq<SortItem>, items1: seq<SortItem>, i: int, right: int, pivotIdx: int, c: int)
    requires 0 <= i <= right + 1 && right < |items| == |items1| && 0 <= pivotIdx < |items|
    requires forall k :: 0 <= k < |items| ==> Extends(items1[k], items[k])
    ensures Unresolved(items1, i, right, pivotIdx) <= Unresolved(items, i, right, pivotIdx)
    ensures i <= c <= right && c != pivotIdx && !HasRelation(items[c], items[pivotIdx]) && HasRelation(items1[c], items1[pivotIdx])
            ==> Unresolved(items1, i, right, pivotIdx) < Unresolved(items, i, right, pivotIdx)
    decreases right - i + 1
  {
    if i <= right {
      UnresolvedShrinks(items, items1, i + 1, right, pivotIdx, c);
      if HasRelation(items[i], items[pivotIdx]) {
        ExtendsKeepsRelation(items[i], items[pivotIdx], items1[i], items1[pivotIdx]);
      }
    }
  }

  /**
   * What recording a truthful answer does to a session: the same items in the
   * same places, every relation still true, the asked pair now related and no
   * other pair of any pending partition related, one fewer item left to ask about.
   */
  lemma RecordStep(s: QuickSortState, rank: Uuid -> int, input: seq<SortItem>)
    requires Inv(s, rank, input) && s.stepType == ChoosingPivot && Injective(rank)
    ensures var r := RecordAnswer(s.items, s.pivotIdx, s.compareIdx, Answer(s, rank));
      && SameUuids(s.items, r)
      && multiset(WithoutRelations(r)) == multiset(WithoutRelations(input))
      && (forall k :: 0 <= k < |r| && (k < s.left || s.right < k) ==> r[k] == s.items[k])
      && DistinctUuids(r)
      && Truthful(r, rank)
      && Ordered(r, Pending(s), rank)
      && PendingUnrelated(r, s.partitionStack)
      && Unrelated(r, s.left, s.right, s.pivotIdx)
      && HasRelation(r[s.compareIdx], r[s.pivotIdx])
      && Unresolved(r, s.left, s.right, s.pivotIdx) < Unresolved(s.items, s.left, s.right, s.pivotIdx)
  {
    var p, c := s.pivotIdx, s.compareIdx;
    var r := RecordAnswer(s.items, p, c, Answer(s, rank));
    RecordExtends(s.items, p, c, Answer(s, rank));
    assert SameUuids(s.items, r);
    SameUuidsKeep(s.items, r, Pending(s), rank);
    RecordTruthful(s.items, p, c, rank);
    StackOutsideCurrent(s);
    PendingUnrelatedFrame(s.items, r, s.partitionStack, s.left, s.right);
    RecordUnrelated(s.items, s.left, s.right, p, c, Answer(s, rank));
    UnresolvedShrinks(s.items, r, s.left, s.right, p, c);
  }

  /** The cost of a stack is the sum over its partitions, however it is split. */
  lemma {:induction false} StackCostAppend(a: seq<(int, int)>, b: seq<(int, int)>)
    ensures StackCost(a + b) == StackCost(a) + StackCost(b)
    decreases |b|
  {
    if b == [] {
      assert a + b == a;
    } else {
      var n := |b| - 1;
      assert (a + b)[..|a + b| - 1] == a + b[..n];
      StackCostAppend(a, b[..n]);
    }
  }

  /** A state never costs more than all its pending partitions would waiting on the stack. */
  lemma MeasureBelowPending(s: QuickSortState)
    requires ValidState(s)
    ensures Measure(s) <= StackCost(Pending(s))
  {
    if s.stepType == ChoosingPivot {
      StackCostAppend(s.partitionStack, [(s.left, s.right)]);
      assert StackCost([(s.left, s.right)]) == RangeCost((s.left, s.right));
    }
  }

  /** Fewer unresolved items in the same partition with the same stack: a smaller measure. */
  lemma MeasureSamePartition(s: QuickSortState, next: QuickSortState)
    requires ValidState(s) && s.stepType == ChoosingPivot && ValidState(next) && next.stepType == ChoosingPivot
    requires next.left == s.left && next.right == s.right && next.pivotIdx == s.pivotIdx
    requires next.partitionStack == s.partitionStack
    requires Unresolved(next.items, s.left, s.right, s.pivotIdx) < Unresolved(s.items, s.left, s.right, s.pivotIdx)
    ensures Measure(next) < Measure(s)
  {
  }

  /** A state with a question pending costs more than its stack by at least the square of its partition's size. */
  lemma MeasureAbovePending(s: QuickSortState)
    requires ValidState(s) && s.stepType == ChoosingPivot
    ensures Measure(s) >= StackCost(s.partitionStack) + (s.right - s.left + 1) * (s.right - s.left + 1)
    ensures Measure(s) >= StackCost(s.partitionStack) + 4
  {
    var size := s.right - s.left + 1;
    assert size * size == size * (size - 2) + 2 * size;
    assert size * (size - 2) >= 0;
  }

  /** The two sides of a split partition cost less together than the current partition alone. */
  lemma SplitCost(left: int, pivot: int, right: int)
    requires left <= pivot <= right
    ensures StackCost(Remainders(left, pivot, right)) < (right - left + 1) * (right - left + 1)
  {
    var a, b := pivot - left, right - pivot;
    var lower := if left < pivot - 1 then [(left, pivot - 1)] else [];
    var upper := if pivot + 1 < right then [(pivot + 1, right)] else [];
    assert Remainders(left, pivot, right) == upper + lower;
    StackCostAppend(upper, lower);
    assert StackCost(lower) <= a * a + a by {
      if lower != [] { assert StackCost(lower) == StackCost([]) + RangeCost((left, pivot - 1)); }
    }
    assert StackCost(upper) <= b * b + b by {
      if upper != [] { assert StackCost(upper) == StackCost([]) + RangeCost((pivot + 1, right)); }
    }
    SidesBelowWhole(a, b);
  }

  /** Two sides of sizes `a` and `b` cost less than the whole of size `a + b + 1`. */
  lemma SidesBelowWhole(a: nat, b: nat)
    ensures a * a + a + b * b + b < (a + b + 1) * (a + b + 1)
  {
    assert (a + b + 1) * (a + b + 1) == a * a + b * b + 2 * (a * b) + 2 * a + 2 * b + 1;
    assert a * b >= 0;
  }

  // ---------------------------------------------------------------------------
  // Moving on to a partition

  /** A partition entered with no relation inside it gets a question about an unrelated pair. */
  lemma FreshPartition(next: QuickSortState)
    requires ValidState(next) && next.stepType == ChoosingPivot
    requires Unrelated(next.items, next.left, next.right, -1)
    requires EntersFresh(next)
    ensures Unrelated(next.items, next.left, next.right, next.pivotIdx)
    ensures next.compareIdx != next.pivotIdx && !HasRelation(next.items[next.compareIdx], next.items[next.pivotIdx])
  {
    var k := if next.pivotIdx == next.left then next.left + 1 else next.left;
    assert !HasRelation(next.items[k], next.items[next.pivotIdx]);
  }

  /** A partition entered by the walk asks about its lowest item unrelated to the pivot, when it has one. */
  predicate EntersFresh(next: QuickSortState)
    requires ValidState(next) && next.stepType == ChoosingPivot
  {
    NextCompare(next.items, next.left, next.right, next.pivotIdx) != -1 ==>
      next.compareIdx == NextCompare(next.items, next.left, next.right, next.pivotIdx)
  }

  /** The stack under the current partition is disjoint when the pending partitions are. */
  lemma DisjointStack(s: QuickSortState)
    requires ValidState(s) && s.stepType == ChoosingPivot && Disjoint(Pending(s))
    ensures Disjoint(s.partitionStack)
  {
    var n := |s.partitionStack|;
    forall x, y | 0 <= x < y < n
      ensures s.partitionStack[x].1 < s.partitionStack[y].0 || s.partitionStack[y].1 < s.partitionStack[x].0
    {
      assert Pending(s)[x] == s.partitionStack[x] && Pending(s)[y] == s.partitionStack[y];
    }
  }

  /**
   * Moving on to a state whose pending partitions are disjoint, free of
   * relations and ordered outside themselves establishes the invariant, at a
   * cost no more than those partitions waiting on the stack.
   */
  lemma ResumeKeepsInv(next: QuickSortState, rank: Uuid -> int, input: seq<SortItem>)
    requires ValidState(next) && (next.stepType == ChoosingPivot ==> EntersFresh(next))
    requires multiset(WithoutRelations(next.items)) == multiset(WithoutRelations(input))
    requires DistinctUuids(next.items) && Truthful(next.items, rank)
    requires Disjoint(Pending(next)) && Ordered(next.items, Pending(next), rank)
    requires PendingUnrelated(next.items, Pending(next))
    ensures Inv(next, rank, input) && Measure(next) <= StackCost(Pending(next))
  {
    if next.stepType == ChoosingPivot {
      assert (next.left, next.right) in Pending(next);
      assert Unrelated(next.items, next.left, next.right, -1);
      forall range | range in next.partitionStack ensures Unrelated(next.items, range.0, range.1, -1) {
        assert range in Pending(next);
      }
      FreshPartition(next);
    }
    MeasureBelowPending(next);
  }

  /** Appending a partition that overlaps none of the others keeps them disjoint. */
  lemma DisjointAppend(pending: seq<(int, int)>, range: (int, int))
    requires Disjoint(pending)
    requires forall other :: other in pending ==> other.1 < range.0 || range.1 < other.0
    ensures Disjoint(pending + [range])
  {
    var p := pending + [range];
    forall x, y | 0 <= x < y < |p| ensures p[x].1 < p[y].0 || p[y].1 < p[x].0 {
      if y == |pending| {
        assert p[x] in pending;
      }
    }
  }

  /** Every item of a rearranged list is one of the input's items, so its relations stay true. */
  lemma TruthfulPermuted(items: seq<SortItem>, t: seq<SortItem>, rank: Uuid -> int)
    requires multiset(t) == multiset(items) && Truthful(items, rank)
    ensures Truthful(t, rank)
  {
    forall k | 0 <= k < |t| ensures TruthfulItem(t[k], rank) {
      assert t[k] in multiset(items);
      var j :| 0 <= j < |items| && items[j] == t[k];
      assert TruthfulItem(items[j], rank);
    }
  }

  // ---------------------------------------------------------------------------
  // The fast path within a session

  /** A partition of three or more items with relations only to its pivot is never fully ordered. */
  lemma WiderIsNotOrdered(items: seq<SortItem>, left: int, right: int, pivotIdx: int)
    requires 0 <= left <= pivotIdx <= right < |items|
    requires Unrelated(items, left, right, pivotIdx)
    ensures right > left + 1 ==> !FullyOrdered(items, left, right)
  {
    if right > left + 1 {
      var i := if pivotIdx == left then left + 1 else left;
      var j := if pivotIdx <= left + 1 then left + 2 else left + 1;
      assert !HasRelation(items[i], items[j]);
      assert !KnownInOrder(items[i], items[j]);
    }
  }

  /**
   * On the fast path of a two-item partition, every recorded relation already
   * agrees with the list's order, and the list is in rank order apart from the
   * partitions left on the stack.
   */
  lemma FastPathAgrees(s: QuickSortState, items: seq<SortItem>, rank: Uuid -> int)
    requires ValidState(s) && s.stepType == ChoosingPivot && s.right == s.left + 1
    requires |items| == |s.items| && Truthful(items, rank) && Ordered(items, Pending(s), rank)
    requires PendingUnrelated(items, s.partitionStack) && FullyOrdered(items, s.left, s.right)
    ensures forall i, j :: 0 <= i < j < |items| ==> RelationComparator(items[i], items[j]) <= 0
    ensures Ordered(items, s.partitionStack, rank)
  {
    assert TruthfulItem(items[s.left], rank) && TruthfulItem(items[s.right], rank);
    assert KnownInOrder(items[s.left], items[s.right]);
    assert rank(items[s.left].uuid) < rank(items[s.right].uuid);
    forall i, j | 0 <= i < j < |items|
      ensures RelationComparator(items[i], items[j]) <= 0
      ensures !SameRange(s.partitionStack, i, j) ==> rank(items[i].uuid) < rank(items[j].uuid)
    {
      assert TruthfulItem(items[i], rank);
      if SameRange(s.partitionStack, i, j) {
        var range :| range in s.partitionStack && range.0 <= i && j <= range.1;
        assert Unrelated(items, range.0, range.1, -1);
        assert !HasRelation(items[i], items[j]);
      } else if i == s.left && j == s.right {
      } else {
        assert !SameRange(Pending(s), i, j);
      }
    }
  }

  // ---------------------------------------------------------------------------
  // The three outcomes of an answer

  /** An answer after which the partition still has an unrelated item: the invariant kept, the measure smaller. */
  lemma AskNextCase(s: QuickSortState, next: QuickSortState, items: seq<SortItem>, rank: Uuid -> int, input: seq<SortItem>)
    requires Inv(s, rank, input) && s.stepType == ChoosingPivot && Injective(rank)
    requires items == RecordAnswer(s.items, s.pivotIdx, s.compareIdx, Answer(s, rank))
    requires next.stepType == ChoosingPivot && next.items == items
    requires next.left == s.left && next.right == s.right && next.pivotIdx == s.pivotIdx
    requires next.partitionStack == s.partitionStack
    requires next.left <= next.compareIdx <= next.right && next.compareIdx != next.pivotIdx
    requires !HasRelation(items[next.compareIdx], items[next.pivotIdx])
    ensures Inv(next, rank, input) && Measure(next) < Measure(s)
  {
    RecordStep(s, rank, input);
    assert Pending(next) == Pending(s);
    MeasureSamePartition(s, next);
  }

  /**
   * The last answer of a fully ordered partition, item by item: the partition
   * holds two items, the list already agrees with every recorded relation, and
   * it is in rank order apart from the stack.
   */
  lemma FastPathItems(s: QuickSortState, items: seq<SortItem>, rank: Uuid -> int, input: seq<SortItem>)
    requires Inv(s, rank, input) && s.stepType == ChoosingPivot && Injective(rank)
    requires items == RecordAnswer(s.items, s.pivotIdx, s.compareIdx, Answer(s, rank))
    requires FullyOrdered(items, s.left, s.right)
    ensures s.right == s.left + 1 && SortByRelations(items) == items
    ensures multiset(WithoutRelations(items)) == multiset(WithoutRelations(input))
    ensures DistinctUuids(items) && Truthful(items, rank)
    ensures Disjoint(s.partitionStack) && Ordered(items, s.partitionStack, rank)
    ensures PendingUnrelated(items, s.partitionStack)
  {
    RecordStep(s, rank, input);
    WiderIsNotOrdered(items, s.left, s.right, s.pivotIdx);
    FastPathAgrees(s, items, rank);
    SortByRelationsKeepsAgreeingOrder(items);
    DisjointStack(s);
  }

  /**
   * Moving on after a partition of two items: nothing new is pending, so the
   * walk resumes the stack, at a cost below the finished partition's.
   */
  lemma PairResume(s: QuickSortState, next: QuickSortState, rank: Uuid -> int, input: seq<SortItem>)
    requires ValidState(s) && s.stepType == ChoosingPivot && s.right == s.left + 1
    requires ValidState(next) && (next.stepType == ChoosingPivot ==> EntersFresh(next))
    requires s.partitionStack == [] ==> next.stepType == Done
    requires s.partitionStack != [] ==> Pending(next) == s.partitionStack + Remainders(s.left, s.pivotIdx, s.right)
    requires multiset(WithoutRelations(next.items)) == multiset(WithoutRelations(input))
    requires DistinctUuids(next.items) && Truthful(next.items, rank)
    requires Disjoint(s.partitionStack) && Ordered(next.items, s.partitionStack, rank)
    requires PendingUnrelated(next.items, s.partitionStack)
    ensures Inv(next, rank, input) && Measure(next) < Measure(s)
  {
    assert Remainders(s.left, s.pivotIdx, s.right) == [];
    assert Pending(next) == s.partitionStack;
    MeasureAbovePending(s);
    ResumeKeepsInv(next, rank, input);
  }

  /** The last answer of a fully ordered partition: the invariant kept, the measure smaller. */
  lemma FastPathCase(s: QuickSortState, next: QuickSortState, items: seq<SortItem>, rank: Uuid -> int, input: seq<SortItem>)
    requires Inv(s, rank, input) && s.stepType == ChoosingPivot && Injective(rank)
    requires items == RecordAnswer(s.items, s.pivotIdx, s.compareIdx, Answer(s, rank))
    requires FullyOrdered(items, s.left, s.right)
    requires ValidState(next) && next.items == SortByRelations(items)
    requires s.partitionStack == [] ==> next.stepType == Done
    requires s.partitionStack != [] ==> Pending(next) == s.partitionStack + Remainders(s.left, s.pivotIdx, s.right)
    requires next.stepType == ChoosingPivot ==> EntersFresh(next)
    ensures Inv(next, rank, input) && Measure(next) < Measure(s)
  {
    FastPathItems(s, items, rank, input);
    PairResume(s, next, rank, input);
  }

  // ---------------------------------------------------------------------------
  // Splitting a partition within a session

  /** The items of a slice are those of the list less those before and after it. */
  lemma SliceItems(s: seq<SortItem>, left: int, right: int)
    requires 0 <= left <= right < |s|
    ensures multiset(s[left..right + 1]) == multiset(s) - multiset(s[..left]) - multiset(s[right + 1..])
  {
    var a, mid, b := s[..left], s[left..right + 1], s[right + 1..];
    assert s == (a + mid) + b;
    calc {
      multiset(s);
    ==
      multiset(a + mid) + multiset(b);
    ==
      multiset(a) + multiset(mid) + multiset(b);
    }
  }

  /** Lists holding the same items and agreeing outside `[left, right]` hold the same items inside it. */
  lemma SameItemsInside(s: seq<SortItem>, t: seq<SortItem>, left: int, right: int)
    requires 0 <= left <= right < |s| == |t| && multiset(s) == multiset(t)
    requires forall k :: 0 <= k < |s| && (k < left || right < k) ==> t[k] == s[k]
    ensures multiset(t[left..right + 1]) == multiset(s[left..right + 1])
  {
    assert t[..left] == s[..left] && t[right + 1..] == s[right + 1..];
    SliceItems(s, left, right);
    SliceItems(t, left, right);
  }

  /**
   * Where partition took each item of `[left, right]` from: an item of the
   * same range, the pivot exactly at the pivot's final index.
   */
  lemma PartitionSource(items: seq<SortItem>, left: int, right: int, pivotIdx: int, k: int) returns (j: int)
    requires 0 <= left <= pivotIdx <= right < |items| && DistinctUuids(items) && left <= k <= right
    ensures left <= j <= right && PartitionResult(items, left, right, pivotIdx).0[k] == items[j]
    ensures k == PartitionResult(items, left, right, pivotIdx).1 <==> j == pivotIdx
  {
    var (t, q) := PartitionResult(items, left, right, pivotIdx);
    PartitionPermutes(items, left, right, pivotIdx);
    PartitionSplits(items, left, right, pivotIdx);
    PartitionKeepsItems(items, left, right, pivotIdx);
    SameItemsInside(items, t, left, right);
    assert t[k] == t[left..right + 1][k - left];
    assert t[k] in multiset(items[left..right + 1]);
    var m :| 0 <= m < right + 1 - left && items[left..right + 1][m] == t[k];
    j := left + m;
    assert t[q] == items[pivotIdx];
  }

  /**
   * Once every item of the partition is related to the pivot, a truthful
   * record puts everything partition gathers left of the pivot below it in
   * rank, and everything right of it above.
   */
  lemma PartitionRanks(items: seq<SortItem>, left: int, right: int, pivotIdx: int, rank: Uuid -> int, k: int)
    requires 0 <= left <= pivotIdx <= right < |items| && DistinctUuids(items) && Truthful(items, rank)
    requires forall i :: left <= i <= right && i != pivotIdx ==> HasRelation(items[i], items[pivotIdx])
    requires left <= k <= right && k != PartitionResult(items, left, right, pivotIdx).1
    ensures var (t, q) := PartitionResult(items, left, right, pivotIdx);
      && (k < q ==> rank(t[k].uuid) < rank(items[pivotIdx].uuid))
      && (q < k ==> rank(t[k].uuid) > rank(items[pivotIdx].uuid))
  {
    var (t, q) := PartitionResult(items, left, right, pivotIdx);
    PartitionSplits(items, left, right, pivotIdx);
    var j := PartitionSource(items, left, right, pivotIdx, k);
    assert TruthfulItem(items[j], rank) && TruthfulItem(items[pivotIdx], rank);
    assert HasRelation(items[j], items[pivotIdx]);
  }

  /** Partition relates no new pair: apart from the pivot, the partition stays free of relations. */
  lemma PartitionUnrelated(items: seq<SortItem>, left: int, right: int, pivotIdx: int)
    requires 0 <= left <= pivotIdx <= right < |items| && DistinctUuids(items)
    requires Unrelated(items, left, right, pivotIdx)
    ensures Unrelated(PartitionResult(items, left, right, pivotIdx).0, left, right, PartitionResult(items, left, right, pivotIdx).1)
  {
    var (t, q) := PartitionResult(items, left, right, pivotIdx);
    PartitionKeepsItems(items, left, right, pivotIdx);
    forall i, j | left <= i <= right && left <= j <= right && i != j && i != q && j != q
      ensures !HasRelation(t[i], t[j])
    {
      var i1 := PartitionSource(items, left, right, pivotIdx, i);
      var j1 := PartitionSource(items, left, right, pivotIdx, j);
      assert t[i].uuid != t[j].uuid;
    }
  }

  /** The sides of a split partition lie inside it, apart from each other and from the stack. */
  lemma RemaindersDisjoint(stack: seq<(int, int)>, left: int, pivot: int, right: int)
    requires left <= pivot <= right && Disjoint(stack)
    requires forall range :: range in stack ==> range.1 < left || right < range.0
    ensures Disjoint(stack + Remainders(left, pivot, right))
  {
    var upper := if pivot + 1 < right then [(pivot + 1, right)] else [];
    var lower := if left < pivot - 1 then [(left, pivot - 1)] else [];
    if upper != [] {
      DisjointAppend(stack, (pivot + 1, right));
    }
    if lower != [] {
      DisjointAppend(stack + upper, (left, pivot - 1));
    }
    assert stack + Remainders(left, pivot, right) == stack + upper + lower;
  }

  /** A position outside the current partition and one inside it are never pending together, so already in rank order. */
  lemma AcrossOrdered(items: seq<SortItem>, stack: seq<(int, int)>, left: int, right: int, rank: Uuid -> int, i: int, j: int)
    requires 0 <= i < j < |items| && (i < left <= j <= right || left <= i <= right < j)
    requires forall range :: range in stack ==> range.1 < left || right < range.0
    requires Ordered(items, stack + [(left, right)], rank)
    ensures rank(items[i].uuid) < rank(items[j].uuid)
  {
    forall range | range in stack + [(left, right)] ensures !(range.0 <= i && j <= range.1) {
    }
  }

  /**
   * Partition keeps the session's order: with every item of the partition
   * related to the pivot, the only positions out of rank order afterwards are
   * pairs within one side of the pivot, which are the new pending partitions.
   */
  lemma PartitionOrdered(items: seq<SortItem>, stack: seq<(int, int)>, left: int, right: int, pivotIdx: int, rank: Uuid -> int)
    requires 0 <= left <= pivotIdx <= right < |items| && DistinctUuids(items) && Truthful(items, rank)
    requires forall i :: left <= i <= right && i != pivotIdx ==> HasRelation(items[i], items[pivotIdx])
    requires forall range :: range in stack ==> range.1 < left || right < range.0
    requires Ordered(items, stack + [(left, right)], rank)
    ensures Ordered(PartitionResult(items, left, right, pivotIdx).0,
                    stack + Remainders(left, PartitionResult(items, left, right, pivotIdx).1, right), rank)
  {
    var (t, q) := PartitionResult(items, left, right, pivotIdx);
    var before, after := stack + [(left, right)], stack + Remainders(left, q, right);
    PartitionPermutes(items, left, right, pivotIdx);
    PartitionSplits(items, left, right, pivotIdx);
    forall i, j | 0 <= i < j < |t|
      ensures !SameRange(after, i, j) ==> rank(t[i].uuid) < rank(t[j].uuid)
    {
      if left <= i <= right && left <= j <= right {
        if j < q {
          assert (left, q - 1) in after;
        } else if q < i {
          assert (q + 1, right) in after;
        } else {
          var pivotRank := rank(items[pivotIdx].uuid);
          if i != q { PartitionRanks(items, left, right, pivotIdx, rank, i); }
          if j != q { PartitionRanks(items, left, right, pivotIdx, rank, j); }
        }
      } else if left <= j <= right {
        var j1 := PartitionSource(items, left, right, pivotIdx, j);
        AcrossOrdered(items, stack, left, right, rank, i, j1);
        assert t[i] == items[i];
      } else if left <= i <= right {
        var i1 := PartitionSource(items, left, right, pivotIdx, i);
        AcrossOrdered(items, stack, left, right, rank, i1, j);
        assert t[j] == items[j];
      } else {
        assert t[i] == items[i] && t[j] == items[j];
        if SameRange(before, i, j) {
          var range :| range in before && range.0 <= i && j <= range.1;
          if range in stack {
            assert range in after;
          }
        }
      }
    }
  }

  /** The two sides partition leaves pending are free of relations, like the partitions below them. */
  lemma SplitUnrelated(items: seq<SortItem>, stack: seq<(int, int)>, left: int, right: int, pivotIdx: int)
    requires 0 <= left <= pivotIdx <= right < |items| && DistinctUuids(items)
    requires Unrelated(items, left, right, pivotIdx) && PendingUnrelated(items, stack)
    requires forall range :: range in stack ==> range.1 < left || right < range.0
    ensures PendingUnrelated(PartitionResult(items, left, right, pivotIdx).0,
                             stack + Remainders(left, PartitionResult(items, left, right, pivotIdx).1, right))
  {
    var (t, q) := PartitionResult(items, left, right, pivotIdx);
    PartitionPermutes(items, left, right, pivotIdx);
    PendingUnrelatedFrame(items, t, stack, left, right);
    PartitionUnrelated(items, left, right, pivotIdx);
    forall range | range in stack + Remainders(left, q, right) ensures Unrelated(t, range.0, range.1, -1) {
      if range !in stack {
        assert range in Remainders(left, q, right);
      }
    }
  }

  /**
   * Partition within a session: the same items with true relations, and the
   * two sides pending in place of the partition, disjoint from each other and
   * from the stack, with everything else in rank order.
   */
  lemma SplitKeeps(items: seq<SortItem>, stack: seq<(int, int)>, left: int, right: int, pivotIdx: int, rank: Uuid -> int)
    requires 0 <= left <= pivotIdx <= right < |items| && DistinctUuids(items) && Truthful(items, rank)
    requires forall i :: left <= i <= right && i != pivotIdx ==> HasRelation(items[i], items[pivotIdx])
    requires Disjoint(stack) && forall range :: range in stack ==> range.1 < left || right < range.0
    requires Ordered(items, stack + [(left, right)], rank)
    ensures var t := PartitionResult(items, left, right, pivotIdx).0;
      var pending := stack + Remainders(left, PartitionResult(items, left, right, pivotIdx).1, right);
      && multiset(WithoutRelations(t)) == multiset(WithoutRelations(items))
      && DistinctUuids(t) && Truthful(t, rank) && Disjoint(pending) && Ordered(t, pending, rank)
  {
    var (t, q) := PartitionResult(items, left, right, pivotIdx);
    PartitionKeepsItems(items, left, right, pivotIdx);
    PartitionPermutes(items, left, right, pivotIdx);
    TruthfulPermuted(items, t, rank);
    RemaindersDisjoint(stack, left, q, right);
    PartitionOrdered(items, stack, left, right, pivotIdx, rank);
  }

  /** What the last answer of a partition split by partition leaves, in terms of the session so far. */
  lemma PartitionItems(s: QuickSortState, items: seq<SortItem>, rank: Uuid -> int, input: seq<SortItem>)
    requires Inv(s, rank, input) && s.stepType == ChoosingPivot && Injective(rank)
    requires items == RecordAnswer(s.items, s.pivotIdx, s.compareIdx, Answer(s, rank))
    requires forall k :: s.left <= k <= s.right && k != s.pivotIdx ==> HasRelation(items[k], items[s.pivotIdx])
    ensures var t := PartitionResult(items, s.left, s.right, s.pivotIdx).0;
      var pending := s.partitionStack + Remainders(s.left, PartitionResult(items, s.left, s.right, s.pivotIdx).1, s.right);
      && multiset(WithoutRelations(t)) == multiset(WithoutRelations(input))
      && DistinctUuids(t) && Truthful(t, rank)
      && Disjoint(pending) && Ordered(t, pending, rank) && PendingUnrelated(t, pending)
  {
    RecordStep(s, rank, input);
    StackOutsideCurrent(s);
    DisjointStack(s);
    assert Pending(s) == s.partitionStack + [(s.left, s.right)];
    SplitKeeps(items, s.partitionStack, s.left, s.right, s.pivotIdx, rank);
    SplitUnrelated(items, s.partitionStack, s.left, s.right, s.pivotIdx);
  }

  /** Moving on from a split partition to the partitions left pending costs less than the state before. */
  lemma SplitMeasure(s: QuickSortState, next: QuickSortState, pivot: int)
    requires ValidState(s) && s.stepType == ChoosingPivot && ValidState(next) && s.left <= pivot <= s.right
    requires Measure(next) <= StackCost(Pending(next))
    requires Pending(next) == s.partitionStack + Remainders(s.left, pivot, s.right)
    ensures Measure(next) < Measure(s)
  {
    StackCostAppend(s.partitionStack, Remainders(s.left, pivot, s.right));
    SplitCost(s.left, pivot, s.right);
    MeasureAbovePending(s);
  }

  /** The last answer of a partition split by partition: the invariant kept, the measure smaller. */
  lemma PartitionCase(s: QuickSortState, next: QuickSortState, items: seq<SortItem>, rank: Uuid -> int, input: seq<SortItem>)
    requires Inv(s, rank, input) && s.stepType == ChoosingPivot && Injective(rank)
    requires items == RecordAnswer(s.items, s.pivotIdx, s.compareIdx, Answer(s, rank))
    requires forall k :: s.left <= k <= s.right && k != s.pivotIdx ==> HasRelation(items[k], items[s.pivotIdx])
    requires ValidState(next) && next.items == PartitionResult(items, s.left, s.right, s.pivotIdx).0
    requires Pending(next) == s.partitionStack + Remainders(s.left, PartitionResult(items, s.left, s.right, s.pivotIdx).1, s.right)
    requires next.stepType == ChoosingPivot ==> EntersFresh(next)
    ensures Inv(next, rank, input) && Measure(next) < Measure(s)
  {
    PartitionItems(s, items, rank, input);
    ResumeKeepsInv(next, rank, input);
    SplitMeasure(s, next, PartitionResult(items, s.left, s.right, s.pivotIdx).1);
  }

  // ---------------------------------------------------------------------------
  // The session

  /** Every truthful answer keeps the session invariant and brings the walk closer to its end. */
  lemma StepKeepsInv(s: QuickSortState, rank: Uuid -> int, input: seq<SortItem>)
    requires Inv(s, rank, input) && s.stepType == ChoosingPivot && Injective(rank)
    ensures Inv(Advance(s, Answer(s, rank)), rank, input)
    ensures Measure(Advance(s, Answer(s, rank))) < Measure(s)
  {
    var answer := Answer(s, rank);
    var next := Advance(s, answer);
    var items := RecordAnswer(s.items, s.pivotIdx, s.compareIdx, answer);
    if exists k :: s.left <= k <= s.right && k != s.pivotIdx && !HasRelation(items[k], items[s.pivotIdx]) {
      AdvanceAsksNext(s, answer);
      AskNextCase(s, next, items, rank, input);
    } else if FullyOrdered(items, s.left, s.right) {
      AdvanceFinishesOrdered(s, answer);
      FastPathCase(s, next, items, rank, input);
    } else {
      AdvancePartitions(s, answer);
      PartitionCase(s, next, items, rank, input);
    }
  }

  /** Items fresh from the sorting screen: no relation recorded on any of them. */
  predicate Fresh(items: seq<SortItem>) {
    forall k :: 0 <= k < |items| ==> items[k].relations == NoRelations
  }

  /** A session starting from fresh items with distinct identifiers starts in the invariant. */
  lemma InitKeepsInv(input: seq<SortItem>, rank: Uuid -> int)
    requires DistinctUuids(input) && Fresh(input)
    ensures Inv(InitializeSort(input), rank, input)
  {
    var s := InitializeSort(input);
    assert Truthful(input, rank) by {
      forall k | 0 <= k < |input| ensures TruthfulItem(input[k], rank) {
        assert input[k].relations == NoRelations;
      }
    }
    if s.stepType == ChoosingPivot {
      assert Unrelated(input, s.left, s.right, -1) by {
        forall i, j | 0 <= i < |input| && 0 <= j < |input| ensures !HasRelation(input[i], input[j]) {
          assert input[i].relations == NoRelations && input[j].relations == NoRelations;
        }
      }
      FreshPartition(s);
      forall i, j | 0 <= i < j < |input| ensures SameRange(Pending(s), i, j) {
        assert (0, |input| - 1) in Pending(s);
      }
    }
  }

  /** In the terminal state nothing is pending, so the whole list is in rank order. */
  lemma DoneIsSorted(s: QuickSortState, rank: Uuid -> int, input: seq<SortItem>)
    requires Inv(s, rank, input) && s.stepType == Done
    ensures multiset(WithoutRelations(s.items)) == multiset(WithoutRelations(input))
    ensures forall i, j :: 0 <= i < j < |s.items| ==> rank(s.items[i].uuid) < rank(s.items[j].uuid)
  {
    assert Pending(s) == [];
    forall i, j | 0 <= i < j < |s.items| ensures rank(s.items[i].uuid) < rank(s.items[j].uuid) {
      assert !SameRange(Pending(s), i, j);
    }
  }

  /**
   * A whole session with a person answering from the strict order `rank`:
   * the walk reaches its terminal state with the list in ascending rank,
   * holding the items it started with, apart from the relations recorded on them.
   */
  method SortWithAnswers(input: seq<SortItem>, rank: Uuid -> int) returns (final: QuickSortState)
    requires DistinctUuids(input) && Fresh(input) && Injective(rank)
    ensures final.stepType == Done
    ensures multiset(WithoutRelations(final.items)) == multiset(WithoutRelations(input))
    ensures forall i, j :: 0 <= i < j < |final.items| ==> rank(final.items[i].uuid) < rank(final.items[j].uuid)
  {
    var state := InitializeSort(input);
    InitKeepsInv(input, rank);
    while state.stepType == ChoosingPivot
      invariant Inv(state, rank, input)
      decreases Measure(state)
    {
      StepKeepsInv(state, rank, input);
      state := AdvanceSort(state, Answer(state, rank));
    }
    DoneIsSorted(state, rank, input);
    return state;
  }
}
