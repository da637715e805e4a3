/**
 * Finishing a partition of the interactive quicksort: the in-place split around
 * the pivot once every item is related to it, and the fast path that recognises
 * a partition whose recorded relations already fix its whole order.
 */
module QuickSortPartition {
  import opened SortItems

  // ---------------------------------------------------------------------------
  // Partitioning

  /**
   * The scan of partition from index `i` on, with `store` the next slot of the
   * small side; the pivot waits at `right`. Every item the scan meets that is
   * recorded before the pivot is swapped down to `store`.
   */
  function PartitionScan(s: seq<SortItem>, pivot: SortItem, i: int, right: int, store: int): (r: (seq<SortItem>, int))
    requires 0 <= store <= i <= right < |s|
    decreases right - i
    ensures |r.0| == |s|
    ensures store <= r.1 <= right
  {
    if i == right then (s, store)
    else if BelongsBefore(pivot, s[i]) then
      PartitionScan(Swap(s, i, store), pivot, i + 1, right, store + 1)
    else
      PartitionScan(s, pivot, i + 1, right, store)
  }

  /** The scan holds the same items as its input, only reordered. */
  lemma {:induction false} PartitionScanPermutes(s: seq<SortItem>, pivot: SortItem, i: int, right: int, store: int)
    requires 0 <= store <= i <= right < |s|
    ensures multiset(PartitionScan(s, pivot, i, right, store).0) == multiset(s)
    decreases right - i
  {
    if i == right {
    } else if BelongsBefore(pivot, s[i]) {
      var t := Swap(s, i, store);
      PartitionScanPermutes(t, pivot, i + 1, right, store + 1);
      SwapPermutes(s, i, store);
    } else {
      PartitionScanPermutes(s, pivot, i + 1, right, store);
    }
  }

  /** The scan leaves every entry outside `[store, right)` where it was. */
  lemma {:induction false} PartitionScanKeepsOutside(s: seq<SortItem>, pivot: SortItem, i: int, right: int, store: int, k: int)
    requires 0 <= store <= i <= right < |s|
    requires 0 <= k < |s| && (k < store || right <= k)
    ensures PartitionScan(s, pivot, i, right, store).0[k] == s[k]
    decreases right - i
  {
    if i == right {
    } else if BelongsBefore(pivot, s[i]) {
      PartitionScanKeepsOutside(Swap(s, i, store), pivot, i + 1, right, store + 1, k);
    } else {
      PartitionScanKeepsOutside(s, pivot, i + 1, right, store, k);
    }
  }

  /**
   * What the scan achieves: given that `[left, store)` holds items recorded
   * before the pivot and `[store, i)` items that are not, the finished scan
   * splits `[left, right)` at the returned index into the items recorded
   * before the pivot and the rest.
   */
  lemma {:induction false} PartitionScanSplits(s: seq<SortItem>, pivot: SortItem, left: int, i: int, right: int, store: int)
    requires 0 <= left <= store <= i <= right < |s|
    requires forall k :: left <= k < store ==> BelongsBefore(pivot, s[k])
    requires forall k :: store <= k < i ==> !BelongsBefore(pivot, s[k])
    ensures forall k :: left <= k < PartitionScan(s, pivot, i, right, store).1
              ==> BelongsBefore(pivot, PartitionScan(s, pivot, i, right, store).0[k])
    ensures forall k :: PartitionScan(s, pivot, i, right, store).1 <= k < right
              ==> !BelongsBefore(pivot, PartitionScan(s, pivot, i, right, store).0[k])
    decreases right - i
  {
    if i == right {
    } else if BelongsBefore(pivot, s[i]) {
      var t := Swap(s, i, store);
      forall k | store < k < i + 1 ensures !BelongsBefore(pivot, t[k]) {
        if k == i { assert t[k] == s[store]; } else { assert t[k] == s[k]; }
      }
      PartitionScanSplits(t, pivot, left, i + 1, right, store + 1);
    } else {
      PartitionScanSplits(s, pivot, left, i + 1, right, store);
    }
  }

  /**
   * The result of partition: the rearranged list and the pivot's final index.
   * The pivot goes to `right`, the items recorded before it are gathered at the
   * front of `[left, right)`, and the pivot is swapped into the first slot after them.
   */
  function PartitionResult(s: seq<SortItem>, left: int, right: int, pivotIdx: int): (r: (seq<SortItem>, int))
    requires 0 <= left <= pivotIdx <= right < |s|
    ensures |r.0| == |s| && left <= r.1 <= right
  {
    var scanned := PartitionScan(Swap(s, pivotIdx, right), s[pivotIdx], left, right, left);
    (Swap(scanned.0, right, scanned.1), scanned.1)
  }

  /** partition rearranges only `[left, right]`: the same items, and every entry outside that range where it was. */
  lemma PartitionPermutes(s: seq<SortItem>, left: int, right: int, pivotIdx: int)
    requires 0 <= left <= pivotIdx <= right < |s|
    ensures multiset(PartitionResult(s, left, right, pivotIdx).0) == multiset(s)
    ensures forall k :: 0 <= k < |s| && (k < left || right < k) ==> PartitionResult(s, left, right, pivotIdx).0[k] == s[k]
  {
    var moved := Swap(s, pivotIdx, right);
    var scanned := PartitionScan(moved, s[pivotIdx], left, right, left);
    SwapPermutes(s, pivotIdx, right);
    PartitionScanPermutes(moved, s[pivotIdx], left, right, left);
    SwapPermutes(scanned.0, right, scanned.1);
    forall k | 0 <= k < |s| && (k < left || right <= k) ensures scanned.0[k] == moved[k] {
      PartitionScanKeepsOutside(moved, s[pivotIdx], left, right, left, k);
    }
  }

  /**
   * partition's split: the pivot at the returned index, the items recorded
   * before it on its left and none of those on its right.
   */
  lemma PartitionSplits(s: seq<SortItem>, left: int, right: int, pivotIdx: int)
    requires 0 <= left <= pivotIdx <= right < |s|
    ensures PartitionResult(s, left, right, pivotIdx).0[PartitionResult(s, left, right, pivotIdx).1] == s[pivotIdx]
    ensures forall k :: left <= k < PartitionResult(s, left, right, pivotIdx).1
              ==> BelongsBefore(s[pivotIdx], PartitionResult(s, left, right, pivotIdx).0[k])
    ensures forall k :: PartitionResult(s, left, right, pivotIdx).1 < k <= right
              ==> !BelongsBefore(s[pivotIdx], PartitionResult(s, left, right, pivotIdx).0[k])
  {
    var pivotItem := s[pivotIdx];
    var moved := Swap(s, pivotIdx, right);
    var scanned := PartitionScan(moved, pivotItem, left, right, left);
    PartitionScanKeepsOutside(moved, pivotItem, left, right, left, right);
    PartitionScanSplits(moved, pivotItem, left, left, right, left);
    var storeIdx := scanned.1;
    var t := Swap(scanned.0, right, storeIdx);
    assert t == PartitionResult(s, left, right, pivotIdx).0;
    forall k | storeIdx < k <= right ensures !BelongsBefore(pivotItem, t[k]) {
      if k < right { assert t[k] == scanned.0[k]; } else { assert t[k] == scanned.0[storeIdx]; }
    }
  }

  /** The list partition returns holds the same items apart from their order, with distinct identifiers kept distinct. */
  lemma PartitionKeepsItems(s: seq<SortItem>, left: int, right: int, pivotIdx: int)
    requires 0 <= left <= pivotIdx <= right < |s|
    ensures multiset(WithoutRelations(PartitionResult(s, left, right, pivotIdx).0)) == multiset(WithoutRelations(s))
    ensures DistinctUuids(s) ==> DistinctUuids(PartitionResult(s, left, right, pivotIdx).0)
  {
    var t := PartitionResult(s, left, right, pivotIdx).0;
    PartitionPermutes(s, left, right, pivotIdx);
    SameItemsWithoutRelations(t, s);
    if DistinctUuids(s) {
      SameItemsDistinct(s, t);
    }
  }

  /** partition, in place: Lomuto's single pass with the relation-based small-side test. */
  method Partition(items: array<SortItem>, left: int, right: int, pivotIdx: int) returns (storeIdx: int)
    requires 0 <= left <= pivotIdx <= right < items.Length
    modifies items
    ensures (items[..], storeIdx) == PartitionResult(old(items[..]), left, right, pivotIdx)
  {
    ghost var input := items[..];
    var pivotItem := items[pivotIdx];
    items[pivotIdx], items[right] := items[right], items[pivotIdx];
    ghost var moved := items[..];
    assert moved == Swap(input, pivotIdx, right);
    storeIdx := left;
    for i := left to right
      invariant left <= storeIdx <= i
      invariant PartitionScan(items[..], pivotItem, i, right, storeIdx)
             == PartitionScan(moved, pivotItem, left, right, left)
    {
      ghost var before := items[..];
      if BelongsBefore(pivotItem, items[i]) {
        items[i], items[storeIdx] := items[storeIdx], items[i];
        assert items[..] == Swap(before, i, storeIdx);
        storeIdx := storeIdx + 1;
      }
    }
    ghost var scanned := items[..];
    items[right], items[storeIdx] := items[storeIdx], items[right];
    assert items[..] == Swap(scanned, right, storeIdx);
  }

  // ---------------------------------------------------------------------------
  // The fast path

  /** A partition in which every pair is recorded in its current order. */
  predicate FullyOrdered(items: seq<SortItem>, left: int, right: int)
    requires 0 <= left && right < |items|
  {
    forall i, j :: left <= i < j <= right ==> KnownInOrder(items[i], items[j])
  }

  /** The pairwise check of isPartitionFullyOrdered, stopping at the first pair out of order. */
  method IsPartitionFullyOrdered(items: seq<SortItem>, left: int, right: int) returns (ordered: bool)
    requires 0 <= left && right < |items|
    ensures ordered == FullyOrdered(items, left, right)
  {
    for i := left to if left <= right then right else left
      invariant forall a, b :: left <= a < i && a < b <= right ==> KnownInOrder(items[a], items[b])
    {
      for j := i + 1 to right + 1
        invariant forall b :: i < b < j ==> KnownInOrder(items[i], items[b])
      {
        if !KnownInOrder(items[i], items[j]) {
          return false;
        }
      }
    }
    return true;
  }

  /** The comparator of the fast path: 1 when `a` is recorded after `b`, -1 when before, else 0. */
  function RelationComparator(a: SortItem, b: SortItem): int {
    if b.uuid in a.relations.uuidsBefore then 1
    else if b.uuid in a.relations.uuidsAfter then -1
    else 0
  }

  /** `sorted` with `x` inserted after the last item the comparator does not put after `x`. */
  function InsertByRelations(sorted: seq<SortItem>, x: SortItem): (r: seq<SortItem>)
    ensures multiset(r) == multiset(sorted) + multiset{x}
  {
    if sorted == [] || RelationComparator(sorted[|sorted| - 1], x) <= 0 then sorted + [x]
    else
      assert sorted == sorted[..|sorted| - 1] + [sorted[|sorted| - 1]];
      InsertByRelations(sorted[..|sorted| - 1], x) + [sorted[|sorted| - 1]]
  }

  /**
   * A stable insertion sort under the fast-path comparator, standing in for the
   * host's array sort: a permutation of its input.
   */
  function SortByRelations(s: seq<SortItem>): (r: seq<SortItem>)
    ensures |r| == |s| && multiset(r) == multiset(s)
  {
    if s == [] then []
    else
      assert s == s[..|s| - 1] + [s[|s| - 1]];
      InsertByRelations(SortByRelations(s[..|s| - 1]), s[|s| - 1])
  }

  /** An item the comparator does not put before the last one is appended at the end. */
  lemma InsertAfterAgreeingLast(sorted: seq<SortItem>, x: SortItem)
    requires sorted != [] ==> RelationComparator(sorted[|sorted| - 1], x) <= 0
    ensures InsertByRelations(sorted, x) == sorted + [x]
  {
  }

  /** On a list that already agrees with every recorded relation, the sort changes nothing. */
  lemma {:induction false} SortByRelationsKeepsAgreeingOrder(s: seq<SortItem>)
    requires forall i, j :: 0 <= i < j < |s| ==> RelationComparator(s[i], s[j]) <= 0
    ensures SortByRelations(s) == s
  {
    if s != [] {
      var n := |s| - 1;
      var init := s[..n];
      SortByRelationsKeepsAgreeingOrder(init);
      if n > 0 {
        assert RelationComparator(s[n - 1], s[n]) <= 0;
      }
      InsertAfterAgreeingLast(init, s[n]);
      assert s[..|s| - 1] == init;
      assert init + [s[n]] == s;
    }
  }
}
