/**
 * The items a user sorts by hand, and the queries the sort engine asks about
 * the before/after relations recorded on them.
 */
module SortItems {

  /** Item identifiers are opaque: the engine only compares them for equality. */
  type Uuid = nat

  /** Identifiers of the items known to sort before, and after, an item. */
  datatype Relations = Relations(uuidsBefore: seq<Uuid>, uuidsAfter: seq<Uuid>)

  /** One item of the list: its identifier, its text and its recorded relations. */
  datatype SortItem = SortItem(uuid: Uuid, value: string, relations: Relations)

  /** No relation recorded at all: how every item enters a fresh sort. */
  const NoRelations := Relations([], [])

  /**
   * Some relation between `x` and `y` is recorded, on either item and in either
   * direction: the four tests of findNextCompare.
   */
  predicate HasRelation(x: SortItem, y: SortItem) {
    || y.uuid in x.relations.uuidsAfter
    || y.uuid in x.relations.uuidsBefore
    || x.uuid in y.relations.uuidsAfter
    || x.uuid in y.relations.uuidsBefore
  }

  /** The partition test: `x` is recorded as sorting before `pivot`. */
  predicate BelongsBefore(pivot: SortItem, x: SortItem) {
    x.uuid in pivot.relations.uuidsBefore || pivot.uuid in x.relations.uuidsAfter
  }

  /** The full-order test: `x` is recorded as sorting before `y`. */
  predicate KnownInOrder(x: SortItem, y: SortItem) {
    y.uuid in x.relations.uuidsAfter || x.uuid in y.relations.uuidsBefore
  }

  /** `it` with `u` appended to the identifiers known to sort before it. */
  function AddBefore(it: SortItem, u: Uuid): (r: SortItem)
    ensures r.uuid == it.uuid && r.value == it.value
    ensures r.relations.uuidsBefore == it.relations.uuidsBefore + [u]
    ensures r.relations.uuidsAfter == it.relations.uuidsAfter
  {
    it.(relations := it.relations.(uuidsBefore := it.relations.uuidsBefore + [u]))
  }

  /** `it` with `u` appended to the identifiers known to sort after it. */
  function AddAfter(it: SortItem, u: Uuid): (r: SortItem)
    ensures r.uuid == it.uuid && r.value == it.value
    ensures r.relations.uuidsBefore == it.relations.uuidsBefore
    ensures r.relations.uuidsAfter == it.relations.uuidsAfter + [u]
  {
    it.(relations := it.relations.(uuidsAfter := it.relations.uuidsAfter + [u]))
  }

  /** The items with their relations cleared: what identifies them apart from the sort. */
  function WithoutRelations(items: seq<SortItem>): (r: seq<SortItem>)
    ensures |r| == |items|
  {
    seq(|items|, k requires 0 <= k < |items| => items[k].(relations := NoRelations))
  }

  /** No two items share an identifier. */
  predicate DistinctUuids(items: seq<SortItem>) {
    forall i, j :: 0 <= i < |items| && 0 <= j < |items| && i != j ==> items[i].uuid != items[j].uuid
  }

  /** `s` with the entries at `i` and `j` exchanged, as a destructuring swap does. */
  function Swap(s: seq<SortItem>, i: int, j: int): (r: seq<SortItem>)
    requires 0 <= i < |s| && 0 <= j < |s|
    ensures |r| == |s| && r[i] == s[j] && r[j] == s[i]
    ensures forall k :: 0 <= k < |s| && k != i && k != j ==> r[k] == s[k]
  {
    seq(|s|, k requires 0 <= k < |s| => if k == j then s[i] else if k == i then s[j] else s[k])
  }

  /** A swap keeps the items of the list, only reordered. */
  lemma SwapPermutes(s: seq<SortItem>, i: int, j: int)
    requires 0 <= i < |s| && 0 <= j < |s|
    ensures multiset(Swap(s, i, j)) == multiset(s)
  {
    assert Swap(s, i, j) == s[i := s[j]][j := s[i]];
  }

  /** Taking the first item off `s` and the same item, at `k`, off `t` leaves two lists holding the same items. */
  lemma RemoveOne(s: seq<SortItem>, t: seq<SortItem>, k: int)
    requires multiset(s) == multiset(t) && s != [] && 0 <= k < |t| && t[k] == s[0]
    ensures t == t[..k] + [s[0]] + t[k + 1..]
    ensures multiset(s[1..]) == multiset(t[..k] + t[k + 1..])
  {
    assert t == t[..k] + [s[0]] + t[k + 1..];
    assert s == [s[0]] + s[1..];
    calc {
      multiset(s[1..]);
      multiset(s) - multiset{s[0]};
      multiset(t) - multiset{s[0]};
      multiset(t[..k]) + multiset(t[k + 1..]);
      multiset(t[..k] + t[k + 1..]);
    }
  }

  /** Lists holding the same items hold the same items once relations are cleared. */
  lemma {:induction false} SameItemsWithoutRelations(s: seq<SortItem>, t: seq<SortItem>)
    requires multiset(s) == multiset(t)
    ensures multiset(WithoutRelations(s)) == multiset(WithoutRelations(t))
    decreases |s|
  {
    if s == [] {
      assert |t| == |multiset(t)| == 0;
    } else {
      var x := s[0];
      assert x in multiset(t);
      var k :| 0 <= k < |t| && t[k] == x;
      var rest := t[..k] + t[k + 1..];
      RemoveOne(s, t, k);
      SameItemsWithoutRelations(s[1..], rest);
      assert WithoutRelations(s) == [x.(relations := NoRelations)] + WithoutRelations(s[1..]);
      assert WithoutRelations(t) == WithoutRelations(t[..k]) + [x.(relations := NoRelations)] + WithoutRelations(t[k + 1..]);
      assert WithoutRelations(rest) == WithoutRelations(t[..k]) + WithoutRelations(t[k + 1..]);
    }
  }

  /** Inserting an item whose identifier is new keeps identifiers distinct. */
  lemma InsertKeepsDistinct(a: seq<SortItem>, b: seq<SortItem>, x: SortItem)
    requires DistinctUuids(a + b)
    requires forall y :: y in a + b ==> y.uuid != x.uuid
    ensures DistinctUuids(a + [x] + b)
  {
    var ab, t := a + b, a + [x] + b;
    forall i, j | 0 <= i < |t| && 0 <= j < |t| && i != j
      ensures t[i].uuid != t[j].uuid
    {
      if i == |a| {
        assert t[j] in ab by { assert t[j] == ab[if j < |a| then j else j - 1]; }
      } else if j == |a| {
        assert t[i] in ab by { assert t[i] == ab[if i < |a| then i else i - 1]; }
      } else {
        var ri, rj := if i < |a| then i else i - 1, if j < |a| then j else j - 1;
        assert t[i] == ab[ri] && t[j] == ab[rj];
      }
    }
  }

  /** Lists holding the same items agree on whether their identifiers are distinct. */
  lemma {:induction false} SameItemsDistinct(s: seq<SortItem>, t: seq<SortItem>)
    requires multiset(s) == multiset(t)
    requires DistinctUuids(s)
    ensures DistinctUuids(t)
    decreases |s|
  {
    if s == [] {
      assert |t| == |multiset(t)| == 0;
    } else {
      var x := s[0];
      assert x in multiset(t);
      var k :| 0 <= k < |t| && t[k] == x;
      var rest := t[..k] + t[k + 1..];
      RemoveOne(s, t, k);
      SameItemsDistinct(s[1..], rest);
      forall y | y in rest ensures y.uuid != x.uuid {
        assert y in multiset(s[1..]);
        var m :| 0 <= m < |s[1..]| && s[1..][m] == y;
        assert s[m + 1] == y;
      }
      InsertKeepsDistinct(t[..k], t[k + 1..], x);
    }
  }
}
