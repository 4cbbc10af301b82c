/** The in-place algorithms of both heaps, over a buffer of type array<int>
    and parameterised by the ordering. Each method is proved to compute its
    functional model from HeapSpec, so the lemmas there carry over:

    - HeapifyDown is the recursive heapifyDown(i) of the two heap classes;
    - SiftDown is the iterative sift-down that deleteMax / deleteMin and both
      phases of the in-place heap sort write out inline;
    - SiftUp is the sift-up loop of insert (and of MaxHeap::heapifyUp);
    - HeapSort is the in-place heap sort written inside main. */
module HeapArray {
  import opened HeapSpec

  /** Recursive sift-down of node i within the window [0, n) of a. */
  method HeapifyDown(o: Order, a: array<int>, n: nat, i: nat)
    requires n <= a.Length
    modifies a
    ensures a[..] == SiftDownF(o, old(a[..]), n, i)
    decreases n - i
  {
    var best := i;
    var l := Left(i);
    var r := Right(i);
    if l < n && Better(o, a[l], a[best]) {
      best := l;
    }
    if r < n && Better(o, a[r], a[best]) {
      best := r;
    }
    assert best == Pick(o, a[..], n, i);
    if best != i {
      a[i], a[best] := a[best], a[i];
      assert a[..] == Swap(old(a[..]), i, best);
      HeapifyDown(o, a, n, best);
    }
  }

  /** The build loop of the bulk-build constructors: sift down every non-leaf
      node of the window [0, n), last one first, with the recursive
      HeapifyDown. BuildWindowCorrect shows the window then is a heap of the
      same elements. */
  method BuildHeap(o: Order, a: array<int>, n: nat)
    requires n <= a.Length
    modifies a
    ensures a[..] == BuildF(o, old(a[..]), n, n / 2)
  {
    for i := n / 2 downto 0
      invariant BuildF(o, a[..], n, i) == BuildF(o, old(a[..]), n, n / 2)
    {
      HeapifyDown(o, a, n, i);
    }
  }

  /** Iterative sift-down of node i within the window [0, n) of a. */
  method SiftDown(o: Order, a: array<int>, n: nat, i: nat)
    requires n <= a.Length
    modifies a
    ensures a[..] == SiftDownF(o, old(a[..]), n, i)
  {
    var node := i;
    while true
      invariant SiftDownF(o, a[..], n, node) == SiftDownF(o, old(a[..]), n, i)
      decreases n - node
    {
      var best := node;
      var l := Left(node);
      var r := Right(node);
      if l < n && Better(o, a[l], a[best]) {
        best := l;
      }
      if r < n && Better(o, a[r], a[best]) {
        best := r;
      }
      assert best == Pick(o, a[..], n, node);
      if best == node {
        break;
      }
      ghost var before := a[..];
      a[node], a[best] := a[best], a[node];
      assert a[..] == Swap(before, node, best);
      node := best;
    }
  }

  /** Takes the root out of the heap a[0..n): the last live element moves
      to the root and sinks back into place inside the shrunk window
      [0, n - 1). Returns the old root. */
  method RemoveRoot(o: Order, a: array<int>, n: nat) returns (root: int)
    requires 0 < n <= a.Length
    modifies a
    ensures root == old(a[0])
    ensures a[..] == DeleteRootF(o, old(a[..]), n)
  {
    root := a[0];
    a[0] := a[n - 1];
    assert a[..] == old(a[..])[0 := old(a[n - 1])];
    if n - 1 > 0 {
      SiftDown(o, a, n - 1, 0);
    }
  }

  /** Sift-up of node i: swap it with its parent while it strictly outranks
      the parent. */
  method SiftUp(o: Order, a: array<int>, i: nat)
    requires i < a.Length
    modifies a
    ensures a[..] == SiftUpF(o, old(a[..]), i)
  {
    var j: nat := i;
    while j > 0 && Better(o, a[j], a[Parent(j)])
      invariant j < a.Length
      invariant SiftUpF(o, a[..], j) == SiftUpF(o, old(a[..]), i)
    {
      ghost var before := a[..];
      var p := Parent(j);
      a[j], a[p] := a[p], a[j];
      assert a[..] == Swap(before, j, p);
      j := p;
    }
  }

  /** Build phase of the in-place heap sort: sift down every non-leaf node of
      the whole array, last one first, with the iterative sift-down. */
  method Heapify(o: Order, a: array<int>)
    modifies a
    ensures a[..] == BuildF(o, old(a[..]), a.Length, a.Length / 2)
  {
    var size := a.Length;
    for i := size / 2 downto 0
      invariant BuildF(o, a[..], size, i) == BuildF(o, old(a[..]), size, size / 2)
    {
      SiftDown(o, a, size, i);
    }
  }

  /** Extraction phase of the in-place heap sort: over a shrinking window
      [0, heapEnd), save the root, move the last cell of the window to the
      root, shrink the window, sift down from the root, and write the saved
      root into the cell just given up. */
  method ExtractAll(o: Order, a: array<int>)
    modifies a
    ensures a[..] == ExtractF(o, old(a[..]), a.Length)
  {
    var size := a.Length;
    var heapEnd := size;
    for k := 0 to size
      invariant heapEnd == size - k
      invariant ExtractF(o, a[..], heapEnd) == ExtractF(o, old(a[..]), size)
    {
      ghost var before := a[..];
      var top := a[0];
      a[0] := a[heapEnd - 1];
      assert a[..] == before[0 := before[heapEnd - 1]];
      heapEnd := heapEnd - 1;
      SiftDown(o, a, heapEnd, 0);
      ghost var sifted := a[..];
      a[heapEnd] := top;
      assert a[..] == sifted[heapEnd := top];
      assert a[..] == Round(o, before, heapEnd + 1);
    }
  }

  /** In-place heap sort: build a heap over the whole array, then repeatedly
      move the root to the cell just after the shrinking heap window. */
  method HeapSort(o: Order, a: array<int>)
    modifies a
    ensures a[..] == HeapSortF(o, old(a[..]))
    ensures SortedBy(o, a[..]) && multiset(a[..]) == multiset(old(a[..]))
  {
    Heapify(o, a);
    ExtractAll(o, a);
    HeapSortCorrect(o, old(a[..]));
  }
}
