/** `MinHeap` of DSAFinal.java: a bag of ints kept in a `PriorityQueue`, with
    insertion, removal of the minimum, and a sorted snapshot that leaves the
    heap as it was. */
module Heaps {
  import opened Ordering

  /** What `remove` delivers: the removed minimum, or, on an empty heap, the
      failure the Java method raises (`poll` yields null and unboxing it to
      `int` throws a NullPointerException). */
  datatype Removal = Removed(value: Int32) | EmptyHeapError

  /** The position of a least element of a non-empty sequence: the minimum
      search that stands in for the queue's internal ordering. */
  method MinIndex(s: seq<Int32>) returns (k: nat)
    requires s != []
    ensures k < |s|
    ensures forall j :: 0 <= j < |s| ==> s[k] <= s[j]
  {
    k := 0;
    var i := 1;
    while i < |s|
      invariant 1 <= i <= |s| && k < i
      invariant forall j :: 0 <= j < i ==> s[k] <= s[j]
    {
      if s[i] < s[k] {
        k := i;
      }
      i := i + 1;
    }
  }

  /** Sorts `a` ascending in place, by insertion: the local stand-in for
      `List.sort(Integer::compareTo)`. */
  method InsertionSort(a: array<Int32>)
    modifies a
    ensures IsSorted(a[..])
    ensures multiset(a[..]) == multiset(old(a[..]))
  {
    var i := 0;
    while i < a.Length
      invariant 0 <= i <= a.Length
      invariant forall k, l :: 0 <= k < l < i ==> a[k] <= a[l]
      invariant multiset(a[..]) == multiset(old(a[..]))
    {
      var j := i;
      while j > 0 && a[j - 1] > a[j]
        invariant 0 <= j <= i
        invariant forall k, l :: 0 <= k < l <= i && k != j && l != j ==> a[k] <= a[l]
        invariant forall l :: j < l <= i ==> a[j] < a[l]
        invariant multiset(a[..]) == multiset(old(a[..]))
      {
        a[j - 1], a[j] := a[j], a[j - 1];
        j := j - 1;
      }
      i := i + 1;
    }
  }

  /** `MinHeap`: the queue's elements, kept as an unordered store. */
  class MinHeap {
    /** The elements of the backing `PriorityQueue`, in no particular order. */
    var store: seq<Int32>

    /** The bag of values the heap holds. */
    ghost function Contents(): multiset<Int32>
      reads this
    {
      multiset(store)
    }

    constructor ()
      ensures store == [] && Contents() == multiset{}
    {
      store := [];
    }

    /** `add`: one more occurrence of `value`. */
    method Add(value: Int32)
      modifies this
      ensures store == old(store) + [value]
      ensures Contents() == old(Contents()) + multiset{value}
    {
      store := store + [value];
    }

    /** `remove`: take out and return one occurrence of the least value. */
    method Remove() returns (r: Removal)
      modifies this
      ensures old(Contents()) == multiset{} ==> r == EmptyHeapError && Contents() == old(Contents())
      ensures old(Contents()) != multiset{} ==>
        r.Removed? && r.value in old(Contents()) &&
        (forall x :: x in old(Contents()) ==> r.value <= x) &&
        Contents() == old(Contents()) - multiset{r.value}
    {
      if store == [] {
        return EmptyHeapError;
      }
      var k := MinIndex(store);
      r := Removed(store[k]);
      assert store == store[..k] + [store[k]] + store[k + 1..];
      store := store[..k] + store[k + 1..];
    }

    /** `getHeapElements`: a sorted copy of the contents; the heap itself is
        not modified. */
    method GetHeapElements() returns (sorted: seq<Int32>)
      ensures IsSorted(sorted)
      ensures multiset(sorted) == Contents()
    {
      var copy := store;
      var a := new Int32[|copy|](i requires 0 <= i < |copy| => copy[i]);
      assert a[..] == copy;
      InsertionSort(a);
      sorted := a[..];
    }
  }

  /** Adding 7, 2, 9, 2 and asking twice for the sorted contents gives
      [2, 2, 7, 9] both times. */
  method ScenarioSnapshot() returns (first: seq<Int32>, second: seq<Int32>)
    ensures first == second == [2, 2, 7, 9]
  {
    var heap := new MinHeap();
    heap.Add(7);
    heap.Add(2);
    heap.Add(9);
    heap.Add(2);
    first := heap.GetHeapElements();
    second := heap.GetHeapElements();
    assert heap.store == [7, 2, 9, 2];
    ScenarioSorted(first);
    ScenarioSorted(second);
  }

  /** The only sorted arrangement of 7, 2, 9, 2 is [2, 2, 7, 9]. */
  lemma ScenarioSorted(r: seq<int>)
    requires IsSorted(r) && multiset(r) == multiset([7, 2, 9, 2])
    ensures r == [2, 2, 7, 9]
  {
    assert multiset([7, 2, 9, 2]) == multiset([2, 2, 7, 9]);
    SortedUnique(r, [2, 2, 7, 9]);
  }
}
