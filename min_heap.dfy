/** The min-heap of min_heap.cpp: a fixed-capacity buffer whose first heapSize
    cells hold a min-heap, with bulk build, insert, delete of the minimum and
    peek, plus the facts proved about the file's in-place heap sort. */
module MinHeaps {
  import opened HeapSpec
  import HeapArray

  /** Capacity the constructors use when the caller gives none. */
  const DefaultCapacity: nat := 100

  class MinHeap {
    var heap: array<int>
    var capacity: nat
    var heapSize: nat

    /** The buffer has the recorded capacity, the live window fits in it, and
        the live window is a min-heap. */
    ghost predicate Valid()
      reads this, heap
    {
      heap.Length == capacity && heapSize <= capacity && IsHeap(MinFirst, heap[..], heapSize)
    }

    /** The live elements, with multiplicity. */
    ghost function Contents(): multiset<int>
      reads this, heap
      requires Valid()
    {
      multiset(heap[..heapSize])
    }

    /** An empty heap that can hold cap elements. */
    constructor (cap: nat := DefaultCapacity)
      ensures Valid() && fresh(heap)
      ensures capacity == cap && heapSize == 0 && Contents() == multiset{}
    {
      capacity := cap;
      heapSize := 0;
      heap := new int[cap];
    }

    /** A heap of the first n elements of arr, built in place by sifting down
        every non-leaf node, last one first; the capacity is max(cap, n). */
    constructor FromArray(arr: array<int>, n: nat, cap: nat := DefaultCapacity)
      requires n <= arr.Length
      ensures Valid() && fresh(heap)
      ensures capacity >= cap && capacity >= n && (capacity == cap || capacity == n)
      ensures heapSize == n
      ensures Contents() == multiset(arr[..n])
      ensures heap[..n] == BuildF(MinFirst, arr[..n], n, n / 2)
    {
      var c := if cap >= n then cap else n;
      var buf := new int[c];
      for i := 0 to n
        invariant buf[..i] == arr[..i]
      {
        buf[i] := arr[i];
      }
      ghost var copied := buf[..];
      HeapArray.BuildHeap(MinFirst, buf, n);
      BuildWindowCorrect(MinFirst, copied, n);
      assert copied[..n] == arr[..n];
      capacity := c;
      heapSize := n;
      heap := buf;
    }

    /** Adds key unless the heap is full; a full heap is left as it was. */
    method Insert(key: int)
      requires Valid()
      modifies this`heapSize, heap
      ensures Valid()
      ensures old(heapSize) == capacity ==> heapSize == old(heapSize) && heap[..] == old(heap[..])
      ensures old(heapSize) < capacity ==>
        heapSize == old(heapSize) + 1 &&
        Contents() == old(Contents()) + multiset{key} &&
        heap[..] == SiftUpF(MinFirst, old(heap[..])[old(heapSize) := key], old(heapSize))
    {
      if heapSize == capacity {
        return;
      }
      heap[heapSize] := key;
      HeapArray.SiftUp(MinFirst, heap, heapSize);
      InsertCorrect(MinFirst, old(heap[..]), heapSize, key);
      heapSize := heapSize + 1;
    }

    /** Removes and returns the minimum; on an empty heap returns -1 and
        changes nothing. */
    method DeleteMin() returns (minVal: int)
      requires Valid()
      modifies this`heapSize, heap
      ensures Valid()
      ensures old(heapSize) == 0 ==> minVal == -1 && heapSize == 0 && heap[..] == old(heap[..])
      ensures old(heapSize) > 0 ==>
        minVal == old(heap[0]) &&
        minVal in old(Contents()) &&
        (forall x :: x in old(Contents()) ==> x >= minVal) &&
        heapSize == old(heapSize) - 1 &&
        Contents() == old(Contents()) - multiset{minVal} &&
        heap[..] == DeleteRootF(MinFirst, old(heap[..]), old(heapSize))
    {
      if heapSize == 0 {
        return -1;
      }
      ghost var s := heap[..];
      ghost var n := heapSize;
      DeleteRootCorrect(MinFirst, s, n);
      minVal := HeapArray.RemoveRoot(MinFirst, heap, heapSize);
      heapSize := heapSize - 1;
      assert heap[..heapSize] == heap[..][..n - 1];
    }

    /** The minimum without removing it; -1 on an empty heap. */
    method GetMin() returns (r: int)
      requires Valid()
      ensures heapSize == 0 ==> r == -1
      ensures heapSize > 0 ==> r == heap[0] && r in Contents() && forall x :: x in Contents() ==> x >= r
    {
      if heapSize == 0 {
        return -1;
      }
      RootIsExtreme(MinFirst, heap[..], heapSize);
      r := heap[0];
    }

    /** True exactly when the heap holds no element. */
    function IsEmpty(): (b: bool)
      reads this, heap
      requires Valid()
      ensures b <==> Contents() == multiset{}
    {
      heapSize == 0
    }

    /** The number of live elements. */
    function Size(): (n: nat)
      reads this, heap
      requires Valid()
      ensures n == |Contents()|
    {
      heapSize
    }
  }

  /** The heap sort of this file leaves its array non-increasing (the smallest
      element is moved to the end of the shrinking window each round), and it
      is a permutation of the input. */
  lemma SortIsNonIncreasing(s: seq<int>)
    ensures NonIncreasing(HeapSortF(MinFirst, s))
    ensures multiset(HeapSortF(MinFirst, s)) == multiset(s)
  {
    HeapSortCorrect(MinFirst, s);
  }

  /** The in-place heap sort written out in main (min_heap.cpp), lifted into a
      method on the array: a min-heap build over the whole array, then rounds
      that each move the minimum of the window just behind it. The array ends
      non-increasing, although the program labels the result "ascending". */
  method SortInPlace(a: array<int>)
    modifies a
    ensures NonIncreasing(a[..]) && multiset(a[..]) == multiset(old(a[..]))
    ensures a[..] == HeapSortF(MinFirst, old(a[..]))
  {
    HeapArray.HeapSort(MinFirst, a);
    SortIsNonIncreasing(old(a[..]));
  }

  /** The smallest element of the file's demo array is 8. */
  lemma DemoArrayMinimum(s: seq<int>, b: int)
    requires s == [20, 15, 30, 8, 10, 40, 25, 12, 18, 35]
    requires b in s && forall k :: 0 <= k < |s| ==> Dominates(MinFirst, b, s[k])
    ensures b == 8
  {
    assert Dominates(MinFirst, b, s[3]);
  }

  /** Building from the file's demo array puts 8 at the root. */
  lemma BuildDemoRoot(s: seq<int>)
    requires s == [20, 15, 30, 8, 10, 40, 25, 12, 18, 35]
    ensures BuildF(MinFirst, s, |s|, |s| / 2)[0] == 8
  {
    BuildRootIsExtreme(MinFirst, s);
    DemoArrayMinimum(s, BuildF(MinFirst, s, |s|, |s| / 2)[0]);
  }

  /** The demo sort input and its non-increasing arrangement hold the same
      elements. */
  lemma DemoSortPermutation(s: seq<int>, t: seq<int>)
    requires s == [64, 34, 25, 12, 22, 11, 90]
    requires t == [90, 64, 34, 25, 22, 12, 11]
    ensures multiset(t) == multiset(s)
  {
  }

  /** The arrangement {90, 64, 34, 25, 22, 12, 11} is non-increasing. */
  lemma DemoSortOrdered(t: seq<int>)
    requires t == [90, 64, 34, 25, 22, 12, 11]
    ensures SortedBy(MinFirst, t)
  {
    forall i, j | 0 <= i < j < |t| ensures t[i] >= t[j] {}
  }

  /** The file's demo sort turns {64, 34, 25, 12, 22, 11, 90} into
      {90, 64, 34, 25, 22, 12, 11}, the reverse of what its "ascending" label
      says. */
  lemma SortDemo(s: seq<int>)
    requires s == [64, 34, 25, 12, 22, 11, 90]
    ensures HeapSortF(MinFirst, s) == [90, 64, 34, 25, 22, 12, 11]
  {
    var t := [90, 64, 34, 25, 22, 12, 11];
    DemoSortPermutation(s, t);
    DemoSortOrdered(t);
    HeapSortIsTheSortedPermutation(MinFirst, s, t);
  }
}
