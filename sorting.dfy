/**
 * Heap sort over `{value, item}` records (utils/sorting.ts).  Every step
 * returns a new sequence; nothing is updated in place.  The comparison
 * and arithmetic helpers of the source (GT, LT, Add, Increment, Decrement)
 * are ordinary integer operations here.
 */
module Sorting {
  import opened TypeLevel

  /** `HeapSortItem<N, T>`: an item with the number it is sorted by. */
  datatype HeapSortItem<T> = HeapSortItem(value: int, item: T)

  /** The items of a record sequence, in order. */
  function Items<T>(a: seq<HeapSortItem<T>>): seq<T>
  {
    seq(|a|, i requires 0 <= i < |a| => a[i].item)
  }

  /** `MapItems<T, Prop, Values>`: pairs each value with its sort key. */
  function MapItems<T>(values: seq<T>, key: T -> int): (r: Ty<seq<HeapSortItem<T>>>)
    ensures values == [] <==> r == Never
    ensures r.Val? ==> |r.value| == |values|
    ensures r.Val? ==> forall i :: 0 <= i < |values| ==> r.value[i] == HeapSortItem(key(values[i]), values[i])
  {
    if values == [] then Never
    else if |values| == 1 then Val([HeapSortItem(key(values[0]), values[0])])
    else
      match MapItems(values[1..], key)
      case Never => Never
      case Val(rest) => Val([HeapSortItem(key(values[0]), values[0])] + rest)
  }

  /** `ExtractItems<T, Items>`: drops the sort keys again. */
  function ExtractItems<T>(a: seq<HeapSortItem<T>>): (r: Ty<seq<T>>)
    ensures a == [] <==> r == Never
    ensures r.Val? ==> r.value == Items(a)
  {
    if a == [] then Never
    else if |a| == 1 then Val([a[0].item])
    else
      match ExtractItems(a[1..])
      case Never => Never
      case Val(rest) => Val([a[0].item] + rest)
  }

  /** Extracting the items of the mapped records gives back the values. */
  lemma ExtractMapItems<T>(values: seq<T>, key: T -> int)
    requires values != []
    ensures ExtractItems(MapItems(values, key).value) == Val(values)
  {
    var m := MapItems(values, key).value;
    assert Items(m) == values;
  }

  /**
   * `Replace<Arr, Item, Idx, N>` of the sorting module: unlike the tuple
   * utility, an index that is never met keeps the last element, so the
   * sequence comes back unchanged.
   */
  function Replace<T>(a: seq<HeapSortItem<T>>, item: HeapSortItem<T>, idx: int, n: int): (r: Ty<seq<HeapSortItem<T>>>)
    ensures a == [] ==> r == Never
    ensures a != [] && n <= idx < n + |a| ==> r == Val(a[idx - n := item])
    ensures a != [] && !(n <= idx < n + |a|) ==> r == Val(a)
  {
    if a == [] then Never
    else if n == idx then
      assert [item] + a[1..] == a[0 := item];
      Val([item] + a[1..])
    else if |a| == 1 then
      assert [a[0]] == a;
      Val([a[0]])
    else
      match Replace(a[1..], item, idx, n + 1)
      case Never => Never
      case Val(rest) =>
        assert n + 1 <= idx < n + |a| ==> [a[0]] + a[1..][idx - n - 1 := item] == a[idx - n := item];
        assert [a[0]] + a[1..] == a;
        Val([a[0]] + rest)
  }

  /** `Swap<Arr, Left, Right>`: two replacements, both reading the original. */
  function Swap<T>(a: seq<HeapSortItem<T>>, left: int, right: int): (r: Ty<seq<HeapSortItem<T>>>)
    requires 0 <= left < |a| && 0 <= right < |a|
    ensures r == Val(a[left := a[right]][right := a[left]])
    ensures multiset(r.value) == multiset(a)
    ensures multiset(Items(r.value)) == multiset(Items(a))
  {
    var swapped := a[left := a[right]][right := a[left]];
    assert Replace(a, a[right], left, 0) == Val(a[left := a[right]]);
    assert Items(swapped) == Items(a)[left := a[right].item][right := a[left].item];
    ExchangeKeeps(a, left, right);
    ExchangeKeeps(Items(a), left, right);
    match Replace(a, a[right], left, 0)
    case Never => Never
    case Val(once) => Replace(once, a[left], right, 0)
  }

  /** Exchanging two entries keeps the multiset. */
  lemma ExchangeKeeps<U>(a: seq<U>, i: int, j: int)
    requires 0 <= i < |a| && 0 <= j < |a|
    ensures multiset(a[i := a[j]][j := a[i]]) == multiset(a)
  {
    if i != j {
      var once := a[i := a[j]];
      assert multiset(once) == multiset(a) - multiset{a[i]} + multiset{a[j]};
      assert once[j] == a[j];
      assert multiset(once[j := a[i]]) == multiset(once) - multiset{a[j]} + multiset{a[i]};
    }
  }

  /** `TwoN<Index>`: 0 + Index + Index. */
  function TwoN(index: int): int
  {
    (0 + index) + index
  }

  /**
   * `DivBy2<Index, C>`: counts C up while 2C is below Index; on
   * overshooting it steps back one.
   */
  function DivBy2(index: int, c: int): (r: int)
    ensures 0 <= c && 2 * c <= index + 1 ==> r == index / 2
    decreases if index > TwoN(c) then index - TwoN(c) else 0
  {
    var n := TwoN(c);
    if n == index then c
    else if index > n then DivBy2(index, c + 1)
    else c - 1
  }

  function LeftChild(index: int): int
  {
    TwoN(index) + 1
  }

  function RightChild(index: int): int
  {
    TwoN(index) + 2
  }

  /** `Parent<Index>`: halves Index - 1. */
  function Parent(index: int): (r: int)
    ensures index >= 0 ==> r == (index - 1) / 2
  {
    DivBy2(index - 1, 0)
  }

  /** Both children of a node lead back to it, at 2i + 1 and 2i + 2. */
  lemma ChildrenOfParent(i: int)
    requires i >= 0
    ensures LeftChild(i) == 2 * i + 1 && RightChild(i) == 2 * i + 2
    ensures Parent(LeftChild(i)) == i && Parent(RightChild(i)) == i
  {
  }

  /** `SiftUp<Arr, Idx>`: swap with the parent while strictly greater than it. */
  function SiftUp<T>(a: seq<HeapSortItem<T>>, idx: int): (r: seq<HeapSortItem<T>>)
    requires 0 <= idx < |a|
    ensures |r| == |a| && multiset(r) == multiset(a) && multiset(Items(r)) == multiset(Items(a))
    ensures forall i :: idx < i < |a| ==> r[i] == a[i]
    decreases idx
  {
    if idx == 0 then a
    else
      var p := Parent(idx);
      if a[idx].value > a[p].value then SiftUp(Swap(a, p, idx).value, p)
      else a
  }

  /**
   * The child `SiftDown` swaps with, or `idx` when it stops: only children
   * with index below Limit are looked at; the larger child is chosen (the
   * right one on a tie) and only when the node is strictly smaller.
   */
  function SiftTarget<T>(a: seq<HeapSortItem<T>>, idx: int, limit: int): (c: int)
    requires 0 <= idx && limit <= |a|
    ensures c == idx || ((c == 2 * idx + 1 || c == 2 * idx + 2) && c < limit && a[idx].value < a[c].value)
    ensures c == idx <==> forall k :: 2 * idx + 1 <= k <= 2 * idx + 2 && k < limit ==> a[k].value <= a[idx].value
    ensures c != idx ==> forall k :: 2 * idx + 1 <= k <= 2 * idx + 2 && k < limit ==> a[k].value <= a[c].value
    ensures c == 2 * idx + 1 ==> 2 * idx + 2 >= limit || a[2 * idx + 2].value < a[c].value
  {
    var lc := LeftChild(idx);
    if lc < limit then
      var rc := RightChild(idx);
      if rc < limit then
        if a[lc].value > a[rc].value then
          if a[idx].value < a[lc].value then lc else idx
        else
          if a[idx].value < a[rc].value then rc else idx
      else
        if a[idx].value < a[lc].value then lc else idx
    else idx
  }

  /** `SiftDown<Arr, Idx, Limit>`: swap down with `SiftTarget` until it stops. */
  function SiftDown<T>(a: seq<HeapSortItem<T>>, idx: int, limit: int): (r: seq<HeapSortItem<T>>)
    requires 0 <= idx && limit <= |a|
    ensures |r| == |a| && multiset(r) == multiset(a) && multiset(Items(r)) == multiset(Items(a))
    ensures forall i :: 0 <= i < |a| && (i < idx || i >= limit) ==> r[i] == a[i]
    decreases limit - idx
  {
    var c := SiftTarget(a, idx, limit);
    if c == idx then a else SiftDown(Swap(a, idx, c).value, c, limit)
  }

  /** `Heapify<Arr, Limit, N>`: sift up each index from N to Limit - 1. */
  function Heapify<T>(a: seq<HeapSortItem<T>>, limit: int, n: int): (r: seq<HeapSortItem<T>>)
    requires 0 <= n <= limit <= |a|
    ensures |r| == |a| && multiset(r) == multiset(a) && multiset(Items(r)) == multiset(Items(a))
    decreases limit - n
  {
    if n == limit then a else Heapify(SiftUp(a, n), limit, n + 1)
  }

  /**
   * `HeapSort<T, Items, N>`: move the root behind the heap, then sift down.
   * The source sifts down with limit N - 1 where a textbook heap sort uses
   * N, so the element just before the moved root is left out of the heap.
   */
  function HeapSort<T>(a: seq<HeapSortItem<T>>, n: int): (r: Ty<seq<T>>)
    requires 0 <= n < |a|
    ensures r.Val? && multiset(r.value) == multiset(Items(a))
    decreases n
  {
    if n == 0 then ExtractItems(a)
    else HeapSort(SiftDown(Swap(a, 0, n).value, 0, n - 1), n - 1)
  }

  /** `Sort<T, Values, Prop>`: map to records, heapify, heap sort, extract. */
  function Sort<T>(values: seq<T>, key: T -> int): (r: Ty<seq<T>>)
    ensures values == [] <==> r == Never
    ensures r.Val? ==> multiset(r.value) == multiset(values)
  {
    match MapItems(values, key)
    case Never => Never
    case Val(items) =>
      assert Items(items) == values;
      HeapSort(Heapify(items, |items|, 0), |items| - 1)
  }

  // ---------------------------------------------------------------------
  // The heap built by Heapify
  // ---------------------------------------------------------------------

  /** Element `i` is no greater than its parent. */
  ghost predicate BelowParent<T>(a: seq<HeapSortItem<T>>, i: int)
    requires 1 <= i < |a|
  {
    a[i].value <= a[(i - 1) / 2].value
  }

  /** Every element below `limit` is no greater than its parent. */
  ghost predicate IsHeap<T>(a: seq<HeapSortItem<T>>, limit: int)
    requires limit <= |a|
  {
    forall i :: 1 <= i < limit ==> BelowParent(a, i)
  }

  /** Element `i` is no greater than the grandparent's value at `k`'s parent. */
  ghost predicate BelowGrandparent<T>(a: seq<HeapSortItem<T>>, i: int, k: int)
    requires 1 <= k < |a| && 0 <= i < |a|
  {
    a[i].value <= a[(k - 1) / 2].value
  }

  /**
   * A heap below `limit` except at `k`, which may exceed its parent; the
   * children of `k` are still no greater than the parent of `k`.
   */
  ghost predicate HeapExceptAt<T>(a: seq<HeapSortItem<T>>, limit: int, k: int)
    requires 0 <= k < limit <= |a|
  {
    && (forall i :: 1 <= i < limit && i != k ==> BelowParent(a, i))
    && (k >= 1 ==> forall i :: 1 <= i < limit && (i - 1) / 2 == k ==> BelowGrandparent(a, i, k))
  }

  lemma {:induction false} SiftUpRestores<T>(a: seq<HeapSortItem<T>>, limit: int, k: int)
    requires 0 <= k < limit <= |a| && HeapExceptAt(a, limit, k)
    ensures IsHeap(SiftUp(a, k), limit)
    decreases k
  {
    if k == 0 {
      assert IsHeap(a, limit);
    } else {
      var p := (k - 1) / 2;
      if a[k].value > a[p].value {
        var b := Swap(a, p, k).value;
        SwapUpKeeps(a, limit, k);
        SiftUpRestores(b, limit, p);
      } else {
        forall i | 1 <= i < limit
          ensures BelowParent(a, i)
        {
          if i != k {
            assert BelowParent(a, i);
          }
        }
      }
    }
  }

  /** Swapping an entry with a smaller parent moves the one defect up to the parent. */
  lemma SwapUpKeeps<T>(a: seq<HeapSortItem<T>>, limit: int, k: int)
    requires 0 < k < limit <= |a| && HeapExceptAt(a, limit, k)
    requires a[k].value > a[(k - 1) / 2].value
    ensures HeapExceptAt(a[(k - 1) / 2 := a[k]][k := a[(k - 1) / 2]], limit, (k - 1) / 2)
  {
    var p := (k - 1) / 2;
    var b := a[p := a[k]][k := a[p]];
    forall i | 1 <= i < limit && i != p
      ensures BelowParent(b, i)
    {
      var q := (i - 1) / 2;
      if i == k {
      } else if q == p {
        assert BelowParent(a, i);
      } else if q == k {
        assert BelowGrandparent(a, i, k);
      } else {
        assert BelowParent(a, i);
      }
    }
    if p >= 1 {
      forall i | 1 <= i < limit && (i - 1) / 2 == p
        ensures BelowGrandparent(b, i, p)
      {
        assert BelowParent(a, p);
        if i != k {
          assert BelowParent(a, i);
        }
      }
    }
  }


  lemma {:induction false} HeapifyBuildsHeap<T>(a: seq<HeapSortItem<T>>, limit: int, n: int)
    requires 0 <= n <= limit <= |a| && IsHeap(a, n)
    ensures IsHeap(Heapify(a, limit, n), limit)
    decreases limit - n
  {
    if n < limit {
      var b := SiftUp(a, n);
      HeapGrows(a, n);
      SiftUpRestores(a, n + 1, n);
      HeapifyBuildsHeap(b, limit, n + 1);
      assert Heapify(a, limit, n) == Heapify(b, limit, n + 1);
    }
  }

  /** A heap below `n` with one more element is a heap except at that element. */
  lemma HeapGrows<T>(a: seq<HeapSortItem<T>>, n: int)
    requires 0 <= n < |a| && IsHeap(a, n)
    ensures HeapExceptAt(a, n + 1, n)
  {
    forall i | 1 <= i < n + 1 && i != n
      ensures BelowParent(a, i)
    {
    }
  }

  /** After `Heapify` over the whole sequence, no element exceeds its parent. */
  lemma HeapifyIsHeap<T>(a: seq<HeapSortItem<T>>)
    ensures IsHeap(Heapify(a, |a|, 0), |a|)
  {
    HeapifyBuildsHeap(a, |a|, 0);
  }

  /** Sorting numbers by themselves. */
  function ByValue(x: int): int { x }

  lemma MapThreeTwoOne()
    ensures MapItems([3, 2, 1], ByValue) == Val([HeapSortItem(3, 3), HeapSortItem(2, 2), HeapSortItem(1, 1)])
  {
    var values := [3, 2, 1];
    var r := MapItems(values, ByValue).value;
    assert r[0] == HeapSortItem(ByValue(values[0]), values[0]);
    assert r[1] == HeapSortItem(ByValue(values[1]), values[1]);
    assert r[2] == HeapSortItem(ByValue(values[2]), values[2]);
    assert ByValue(3) == 3 && ByValue(2) == 2 && ByValue(1) == 1;
    assert |r| == 3;
    assert r == [r[0], r[1], r[2]];
  }

  lemma HeapifyThreeTwoOne()
    ensures var items := [HeapSortItem(3, 3), HeapSortItem(2, 2), HeapSortItem(1, 1)];
      Heapify(items, 3, 0) == items
  {
    var items := [HeapSortItem(3, 3), HeapSortItem(2, 2), HeapSortItem(1, 1)];
    assert Parent(1) == 0 && Parent(2) == 0;
    assert SiftUp(items, 0) == items;
    assert SiftUp(items, 1) == items;
    assert SiftUp(items, 2) == items;
  }

  lemma FirstRound()
    ensures var items := [HeapSortItem(3, 3), HeapSortItem(2, 2), HeapSortItem(1, 1)];
      SiftDown(Swap(items, 0, 2).value, 0, 1) == [HeapSortItem(1, 1), HeapSortItem(2, 2), HeapSortItem(3, 3)]
  {
    var first := [HeapSortItem(1, 1), HeapSortItem(2, 2), HeapSortItem(3, 3)];
    assert LeftChild(0) == 1;
    assert SiftTarget(first, 0, 1) == 0;
  }

  lemma SecondRound()
    ensures var first := [HeapSortItem(1, 1), HeapSortItem(2, 2), HeapSortItem(3, 3)];
      SiftDown(Swap(first, 0, 1).value, 0, 0) == [HeapSortItem(2, 2), HeapSortItem(1, 1), HeapSortItem(3, 3)]
  {
    var second := [HeapSortItem(2, 2), HeapSortItem(1, 1), HeapSortItem(3, 3)];
    assert SiftTarget(second, 0, 0) == 0;
  }

  /**
   * Because the sift-down after each swap stops one short, `[3, 2, 1]`
   * comes out as `[2, 1, 3]`, which is not in order.
   */
  lemma ThreeTwoOne()
    ensures Sort([3, 2, 1], ByValue) == Val([2, 1, 3])
  {
    var items := [HeapSortItem(3, 3), HeapSortItem(2, 2), HeapSortItem(1, 1)];
    var first := [HeapSortItem(1, 1), HeapSortItem(2, 2), HeapSortItem(3, 3)];
    var second := [HeapSortItem(2, 2), HeapSortItem(1, 1), HeapSortItem(3, 3)];
    MapThreeTwoOne();
    HeapifyThreeTwoOne();
    FirstRound();
    SecondRound();
    LastRound();
    assert HeapSort(first, 1) == HeapSort(second, 0);
    assert HeapSort(items, 2) == HeapSort(first, 1);
  }

  lemma LastRound()
    ensures ExtractItems([HeapSortItem(2, 2), HeapSortItem(1, 1), HeapSortItem(3, 3)]) == Val([2, 1, 3])
  {
    var second := [HeapSortItem(2, 2), HeapSortItem(1, 1), HeapSortItem(3, 3)];
    assert Items(second) == [2, 1, 3];
  }
}
