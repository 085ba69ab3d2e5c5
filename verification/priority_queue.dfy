/** A binary min-heap of graph nodes ordered by `key`, stored densely in a
    sequence: the children of position `i` sit at `2i+1` and `2i+2`. */
module PriorityQueues {
  import opened Wrappers

  /** The graph node as the heap sees it: only `key` orders it; `index`
      keeps distinct nodes with equal keys apart. */
  datatype Node = Node(index: int, key: int)

  function LeftChildIndex(i: int): (c: int)
    ensures ParentIndex(c) == i
  {
    2 * i + 1
  }

  function RightChildIndex(i: int): (c: int)
    ensures ParentIndex(c) == i
  {
    2 * i + 2
  }

  /** `Math.floor((i - 1) / 2)`. Dividing by the positive constant 2,
      Dafny's Euclidean division rounds down exactly as `Math.floor` does,
      so the root's parent is -1. */
  function ParentIndex(i: int): (p: int)
    ensures 2 * p + 1 == i || 2 * p + 2 == i
    ensures i > 0 ==> 0 <= p < i
  {
    (i - 1) / 2
  }

  /** Exchanges two positions and changes nothing else. */
  function Swap(h: seq<Node>, i: int, j: int): (r: seq<Node>)
    requires 0 <= i < |h| && 0 <= j < |h|
    ensures |r| == |h|
    ensures r[i] == h[j] && r[j] == h[i]
    ensures forall k :: 0 <= k < |h| && k != i && k != j ==> r[k] == h[k]
    ensures multiset(r) == multiset(h)
  {
    var r := h[i := h[j]][j := h[i]];
    assert multiset(h[i := h[j]]) == multiset(h) - multiset{h[i]} + multiset{h[j]};
    r
  }

  /** Heap order: no node has a smaller key than its parent. */
  ghost predicate IsHeap(h: seq<Node>)
  {
    forall i :: 0 < i < |h| ==> h[ParentIndex(i)].key <= h[i].key
  }

  /** Heap order everywhere except between position `c` and its parent. */
  ghost predicate HeapExceptAbove(h: seq<Node>, c: int)
  {
    forall i :: 0 < i < |h| && i != c ==> h[ParentIndex(i)].key <= h[i].key
  }

  /** Heap order everywhere except between position `c` and its children. */
  ghost predicate HeapExceptBelow(h: seq<Node>, c: int)
  {
    forall i :: 0 < i < |h| && ParentIndex(i) != c ==> h[ParentIndex(i)].key <= h[i].key
  }

  /** The parent of `c` (if any) is no larger than the children of `c`:
      what lets `c` be moved past its parent or children without breaking
      the order around it. */
  ghost predicate ParentBoundsChildren(h: seq<Node>, c: int)
    requires 0 <= c < |h|
  {
    c > 0 ==>
      forall i :: 0 < i < |h| && ParentIndex(i) == c ==> h[ParentIndex(c)].key <= h[i].key
  }

  /** The child `heapifyDown` compares against: the right child when it
      exists and its key is strictly smaller, else the left child. */
  function SmallerChildIndex(h: seq<Node>, i: int): (c: int)
    requires 0 <= i && LeftChildIndex(i) < |h|
    ensures ParentIndex(c) == i && 0 <= c < |h|
    ensures forall k :: 0 < k < |h| && ParentIndex(k) == i ==> h[c].key <= h[k].key
  {
    var l, r := LeftChildIndex(i), RightChildIndex(i);
    if r < |h| && h[r].key < h[l].key then r else l
  }

  /** The node at `c` moves towards the root while its key is strictly
      smaller than its parent's. */
  method HeapifyUp(h: seq<Node>, index: int) returns (r: seq<Node>)
    requires 0 <= index < |h|
    ensures |r| == |h| && multiset(r) == multiset(h)
    ensures HeapExceptAbove(h, index) && ParentBoundsChildren(h, index) ==> IsHeap(r)
    ensures index == 0 || h[ParentIndex(index)].key <= h[index].key ==> r == h
  {
    ghost var pre := HeapExceptAbove(h, index) && ParentBoundsChildren(h, index);
    r := h;
    var current := index;
    var parent := ParentIndex(current);
    while current > 0 && r[current].key < r[parent].key
      invariant 0 <= current < |r| && parent == ParentIndex(current)
      invariant |r| == |h| && multiset(r) == multiset(h)
      invariant pre ==> HeapExceptAbove(r, current) && ParentBoundsChildren(r, current)
      invariant current == index ==> r == h
      invariant index == 0 || h[ParentIndex(index)].key <= h[index].key ==> current == index
      decreases current
    {
      r := Swap(r, current, parent);
      current := parent;
      parent := ParentIndex(current);
    }
  }

  /** One swap of `heapifyDown` moves the possible violation one level down. */
  lemma SiftDownStep(h: seq<Node>, c: int)
    requires 0 <= c && LeftChildIndex(c) < |h|
    requires HeapExceptBelow(h, c) && ParentBoundsChildren(h, c)
    requires h[SmallerChildIndex(h, c)].key < h[c].key
    ensures HeapExceptBelow(Swap(h, c, SmallerChildIndex(h, c)), SmallerChildIndex(h, c))
    ensures ParentBoundsChildren(Swap(h, c, SmallerChildIndex(h, c)), SmallerChildIndex(h, c))
  {
    var m := SmallerChildIndex(h, c);
    var r := Swap(h, c, m);
    forall i | 0 < i < |r| && ParentIndex(i) != m
      ensures r[ParentIndex(i)].key <= r[i].key
    {
      var p := ParentIndex(i);
      if i == m {
      } else if p == c {
      } else if i == c {
        assert r[p] == h[p];
      } else {
        assert r[i] == h[i];
      }
    }
  }

  /** When the node at `c` is no larger than its smaller child (or has
      none), the order broken only below `c` is not broken at all. */
  lemma SiftDownDone(h: seq<Node>, c: int)
    requires 0 <= c < |h| && HeapExceptBelow(h, c)
    requires LeftChildIndex(c) < |h| ==> h[c].key <= h[SmallerChildIndex(h, c)].key
    ensures IsHeap(h)
  {
    forall i | 0 < i < |h| && ParentIndex(i) == c
      ensures h[c].key <= h[i].key
    {
      assert LeftChildIndex(c) <= i;
    }
  }

  /** The node at `index` moves towards the leaves, swapping with its
      smaller child, until no child has a strictly smaller key. */
  method HeapifyDown(h: seq<Node>, index: int) returns (r: seq<Node>)
    requires 0 <= index < |h|
    ensures |r| == |h| && multiset(r) == multiset(h)
    ensures HeapExceptBelow(h, index) && ParentBoundsChildren(h, index) ==> IsHeap(r)
    ensures LeftChildIndex(index) >= |h| || h[index].key <= h[SmallerChildIndex(h, index)].key ==> r == h
  {
    ghost var pre := HeapExceptBelow(h, index) && ParentBoundsChildren(h, index);
    r := h;
    var current := index;
    var left := LeftChildIndex(current);
    while left < |r|
      invariant 0 <= current < |r| && left == LeftChildIndex(current)
      invariant |r| == |h| && multiset(r) == multiset(h)
      invariant pre ==> HeapExceptBelow(r, current) && ParentBoundsChildren(r, current)
      invariant current == index ==> r == h
      invariant LeftChildIndex(index) >= |h| || h[index].key <= h[SmallerChildIndex(h, index)].key ==> current == index
      decreases |r| - current
    {
      var smaller := SmallerChildIndex(r, current);
      if r[current].key <= r[smaller].key {
        break;
      }
      if pre {
        SiftDownStep(r, current);
      }
      r := Swap(r, current, smaller);
      current := smaller;
      left := LeftChildIndex(current);
    }
    if pre {
      SiftDownDone(r, current);
    }
  }

  /** The queue object: its private array, kept in heap order. */
  datatype PriorityQueue = PriorityQueue(heap: seq<Node>) {
    ghost predicate Valid()
    {
      IsHeap(heap)
    }
  }

  /** The constructor: an empty heap. */
  function Empty(): (q: PriorityQueue)
    ensures q.Valid() && IsEmpty(q)
  {
    PriorityQueue([])
  }

  function IsEmpty(q: PriorityQueue): (b: bool)
    ensures b <==> multiset(q.heap) == multiset{}
  {
    |q.heap| == 0
  }

  /** Every node of a heap has a key no smaller than the root's. */
  lemma {:induction false} RootIsMinimum(h: seq<Node>, k: int)
    requires IsHeap(h) && 0 <= k < |h|
    ensures h[0].key <= h[k].key
    decreases k
  {
    if k > 0 {
      RootIsMinimum(h, ParentIndex(k));
    }
  }

  method Insert(q: PriorityQueue, node: Node) returns (q': PriorityQueue)
    requires q.Valid()
    ensures q'.Valid()
    ensures |q'.heap| == |q.heap| + 1
    ensures multiset(q'.heap) == multiset(q.heap) + multiset{node}
  {
    var h := q.heap + [node];
    assert HeapExceptAbove(h, |h| - 1) by {
      forall i | 0 < i < |h| && i != |h| - 1
        ensures h[ParentIndex(i)].key <= h[i].key
      {
        assert h[i] == q.heap[i] && h[ParentIndex(i)] == q.heap[ParentIndex(i)];
      }
    }
    h := HeapifyUp(h, |h| - 1);
    q' := PriorityQueue(h);
  }

  /** Replacing the root by the last node (and dropping the last slot)
      removes exactly the root and leaves the order intact below the root. */
  lemma RootReplacedByLast(h: seq<Node>)
    requires IsHeap(h) && |h| >= 2
    ensures HeapExceptBelow([h[|h| - 1]] + h[1..|h| - 1], 0)
    ensures multiset([h[|h| - 1]] + h[1..|h| - 1]) == multiset(h) - multiset{h[0]}
  {
    var n := |h|;
    var r := [h[n - 1]] + h[1..n - 1];
    assert h == [h[0]] + h[1..n - 1] + [h[n - 1]];
    forall i | 0 < i < |r| && ParentIndex(i) != 0
      ensures r[ParentIndex(i)].key <= r[i].key
    {
      assert r[i] == h[i] && r[ParentIndex(i)] == h[ParentIndex(i)];
    }
  }

  /** Removes and returns a node of least key; `None` (the source's `null`)
      when the heap is empty. The last node replaces the root and sifts down. */
  method ExtractMin(q: PriorityQueue) returns (m: Option<Node>, q': PriorityQueue)
    requires q.Valid()
    ensures q'.Valid()
    ensures m.None? <==> IsEmpty(q)
    ensures m.None? ==> q' == q
    ensures m.Some? ==> forall k :: 0 <= k < |q.heap| ==> m.value.key <= q.heap[k].key
    ensures m.Some? ==> m.value in multiset(q.heap)
    ensures m.Some? ==> multiset(q'.heap) == multiset(q.heap) - multiset{m.value}
    ensures m.Some? ==> |q'.heap| == |q.heap| - 1
  {
    if IsEmpty(q) {
      return None, q;
    }
    forall k | 0 <= k < |q.heap|
      ensures q.heap[0].key <= q.heap[k].key
    {
      RootIsMinimum(q.heap, k);
    }
    var n := |q.heap|;
    if n == 1 {
      assert q.heap == [q.heap[0]];
      return Some(q.heap[0]), PriorityQueue([]);
    }
    var minNode := q.heap[0];
    var h := [q.heap[n - 1]] + q.heap[1..n - 1];
    RootReplacedByLast(q.heap);
    h := HeapifyDown(h, 0);
    m, q' := Some(minNode), PriorityQueue(h);
  }
}
