/**
 * The array-backed binary heap `PriorityQueue` (script.js:1-79).
 *
 * The pure functions `SiftUp` and `SiftDown` say what the two while-loops of
 * `queue` and `dequeue` compute; the class methods run the loops on the
 * `_heap` field and are proved to agree with them.
 */
module Heap {
  import opened Optional
  import opened Collections

  /** `_parent(idx)`: `Math.floor((idx - 1) / 2)`; Dafny's division rounds
      down for a positive divisor, so this is the same value, -1 at the root. */
  function Parent(idx: nat): (p: int)
    ensures idx == 0 ==> p == -1
    ensures idx > 0 ==> 0 <= p < idx && (LeftChild(p) == idx || RightChild(p) == idx)
  {
    (idx - 1) / 2
  }

  /** `_leftChild(idx)`. */
  function LeftChild(idx: nat): nat {
    idx * 2 + 1
  }

  /** `_rightChild(idx)`. */
  function RightChild(idx: nat): nat {
    idx * 2 + 2
  }

  /** Both children of a slot have it as their parent. */
  lemma ParentOfChild(idx: nat)
    ensures Parent(LeftChild(idx)) == idx && Parent(RightChild(idx)) == idx
  {
  }

  /** Heap order under a comparator: no parent compares greater than its child. */
  ghost predicate HeapOrdered<T>(h: seq<T>, cmp: (T, T) -> int) {
    forall i :: 0 < i < |h| ==> cmp(h[Parent(i)], h[i]) <= 0
  }

  /** What a comparator must satisfy for the sift loops to keep heap order:
      when `a` does not compare below `b`, `b` does not compare above `a`,
      and "not greater" is transitive. `(a, b) => a.f - b.f` of A* is one
      such comparator (`Search.ByCostConsistent`). */
  ghost predicate ConsistentComparator<T(!new)>(cmp: (T, T) -> int) {
    (forall a, b :: cmp(a, b) >= 0 ==> cmp(b, a) <= 0) &&
    (forall a, b, c :: cmp(a, b) <= 0 && cmp(b, c) <= 0 ==> cmp(a, c) <= 0)
  }

  /** The root of an ordered heap compares no greater than any entry: the
      first `dequeue` after a run of `queue` calls returns a least entry. */
  lemma {:induction false} RootIsLeast<T(!new)>(h: seq<T>, cmp: (T, T) -> int, i: nat)
    requires ConsistentComparator(cmp) && HeapOrdered(h, cmp) && i < |h|
    ensures cmp(h[0], h[i]) <= 0
    decreases i
  {
    if i == 0 {
      assert cmp(h[0], h[0]) >= 0 ==> cmp(h[0], h[0]) <= 0;
    } else {
      var p := Parent(i) as nat;
      RootIsLeast(h, cmp, p);
      assert cmp(h[p], h[i]) <= 0;
    }
  }

  /** The sift-up loop of `queue` (script.js:27-35), started at slot `idx`:
      swap with the parent while the parent compares greater. */
  function SiftUp<T>(h: seq<T>, cmp: (T, T) -> int, idx: nat): (r: seq<T>)
    requires idx < |h|
    ensures |r| == |h|
    decreases idx
  {
    if idx != 0 && cmp(h[Parent(idx)], h[idx]) > 0 then
      SiftUp(Swapped(h, idx, Parent(idx)), cmp, Parent(idx))
    else
      h
  }

  lemma {:induction false} SiftUpPermutes<T>(h: seq<T>, cmp: (T, T) -> int, idx: nat)
    requires idx < |h|
    ensures multiset(SiftUp(h, cmp, idx)) == multiset(h)
    decreases idx
  {
    if idx != 0 && cmp(h[Parent(idx)], h[idx]) > 0 {
      SwappedPermutes(h, idx, Parent(idx));
      SiftUpPermutes(Swapped(h, idx, Parent(idx)), cmp, Parent(idx));
    }
  }

  /** The heap after `queue(value)`: push, then sift up from the last slot. */
  function AfterQueue<T>(h: seq<T>, cmp: (T, T) -> int, value: T): (r: seq<T>)
    ensures |r| == |h| + 1
  {
    SiftUp(h + [value], cmp, |h|)
  }

  /** `queue` adds exactly the queued value. */
  lemma QueuePermutes<T>(h: seq<T>, cmp: (T, T) -> int, value: T)
    ensures multiset(AfterQueue(h, cmp, value)) == multiset(h) + multiset{value}
  {
    SiftUpPermutes(h + [value], cmp, |h|);
  }

  /** Heap order holds on every edge except the one above `idx`, and the
      parent of `idx` is already no greater than the children of `idx`. */
  ghost predicate OrderedExceptAbove<T>(h: seq<T>, cmp: (T, T) -> int, idx: nat) {
    (forall i :: 0 < i < |h| && i != idx ==> cmp(h[Parent(i)], h[i]) <= 0) &&
    (0 < idx < |h| ==> forall c :: 0 < c < |h| && Parent(c) == idx ==> cmp(h[Parent(idx)], h[c]) <= 0)
  }

  lemma {:induction false} SiftUpRestoresOrder<T(!new)>(h: seq<T>, cmp: (T, T) -> int, idx: nat)
    requires idx < |h| && ConsistentComparator(cmp) && OrderedExceptAbove(h, cmp, idx)
    ensures HeapOrdered(SiftUp(h, cmp, idx), cmp)
    decreases idx
  {
    if idx != 0 && cmp(h[Parent(idx)], h[idx]) > 0 {
      var p := Parent(idx) as nat;
      var s := Swapped(h, idx, p);
      assert cmp(h[idx], h[p]) <= 0;
      forall i | 0 < i < |s| && i != p ensures cmp(s[Parent(i)], s[i]) <= 0 {
        if i == idx {
        } else if Parent(i) == p {
          assert cmp(h[p], h[i]) <= 0;
        } else if Parent(i) == idx {
        } else {
          assert cmp(h[Parent(i)], h[i]) <= 0;
        }
      }
      if p > 0 {
        forall c | 0 < c < |s| && Parent(c) == p ensures cmp(s[Parent(p)], s[c]) <= 0 {
          assert cmp(h[Parent(p)], h[p]) <= 0;
          if c != idx {
            assert cmp(h[p], h[c]) <= 0;
          }
        }
      }
      SiftUpRestoresOrder(s, cmp, p);
    }
  }

  /** `queue` keeps a heap ordered under a consistent comparator. */
  lemma QueueKeepsOrder<T(!new)>(h: seq<T>, cmp: (T, T) -> int, value: T)
    requires ConsistentComparator(cmp) && HeapOrdered(h, cmp)
    ensures HeapOrdered(AfterQueue(h, cmp, value), cmp)
  {
    var g := h + [value];
    forall c | 0 < c < |g| && Parent(c) == |h| ensures false {
    }
    SiftUpRestoresOrder(g, cmp, |h|);
  }

  /** The child the sift-down loop of `dequeue` moves `end` to (script.js:50-65).
      As written, the left child is taken when it compares below `end`, and the
      right child is then taken either when it compares below the LEFT child
      or, unconditionally, when the left child was not taken. */
  function ChildToSwap<T>(h: seq<T>, cmp: (T, T) -> int, idx: nat, end: T): (c: Option<nat>)
    ensures c.Some? ==> idx < c.value < |h| && Parent(c.value) == idx
  {
    var left, right := LeftChild(idx), RightChild(idx);
    var byLeft := if left < |h| && cmp(h[left], end) < 0 then Some(left) else None;
    if right < |h| && (byLeft.None? || cmp(h[right], h[left]) < 0) then Some(right) else byLeft
  }

  /** The sift-down loop of `dequeue`, from slot `idx`. */
  function SiftDown<T>(h: seq<T>, cmp: (T, T) -> int, idx: nat, end: T): (r: seq<T>)
    requires idx < |h|
    ensures |r| == |h|
    decreases |h| - idx
  {
    match ChildToSwap(h, cmp, idx, end)
    case None => h
    case Some(c) => SiftDown(Swapped(h, idx, c), cmp, c, end)
  }

  lemma {:induction false} SiftDownPermutes<T>(h: seq<T>, cmp: (T, T) -> int, idx: nat, end: T)
    requires idx < |h|
    ensures multiset(SiftDown(h, cmp, idx, end)) == multiset(h)
    decreases |h| - idx
  {
    match ChildToSwap(h, cmp, idx, end)
    case None =>
    case Some(c) =>
      SwappedPermutes(h, idx, c);
      SiftDownPermutes(Swapped(h, idx, c), cmp, c, end);
  }

  /** The heap after `dequeue()`: the last element replaces the root and sifts down. */
  function AfterDequeue<T>(h: seq<T>, cmp: (T, T) -> int): (r: seq<T>)
    ensures |h| > 0 ==> |r| == |h| - 1
    ensures |h| == 0 ==> r == []
  {
    if |h| <= 1 then []
    else
      var end := h[|h| - 1];
      var rest := h[..|h| - 1];
      SiftDown(rest[0 := end], cmp, 0, end)
  }

  /** `dequeue` removes exactly the root. */
  lemma DequeuePermutes<T>(h: seq<T>, cmp: (T, T) -> int)
    requires |h| > 0
    ensures multiset(AfterDequeue(h, cmp)) == multiset(h) - multiset{h[0]}
  {
    if |h| > 1 {
      var end := h[|h| - 1];
      var rest := h[..|h| - 1];
      assert h == rest + [end];
      assert rest == [h[0]] + rest[1..];
      assert rest[0 := end] == [end] + rest[1..];
      SiftDownPermutes(rest[0 := end], cmp, 0, end);
    }
  }

  function IntOrder(a: int, b: int): int {
    a - b
  }

  /** As written, `dequeue` does not keep heap order: from the ordered heap
      [0,5,1,6,6,8,9,7] it leaves 9 above 8 and 7. */
  lemma DequeueCanBreakOrder()
    ensures HeapOrdered([0, 5, 1, 6, 6, 8, 9, 7], IntOrder)
    ensures AfterDequeue([0, 5, 1, 6, 6, 8, 9, 7], IntOrder) == [1, 5, 9, 6, 6, 8, 7]
    ensures !HeapOrdered(AfterDequeue([0, 5, 1, 6, 6, 8, 9, 7], IntOrder), IntOrder)
  {
    ExampleOrdered();
    ExampleDequeue();
    ParentsUpTo7();
    var s2: seq<int> := [1, 5, 9, 6, 6, 8, 7];
    assert IntOrder(s2[Parent(5)], s2[5]) > 0;
  }

  lemma ExampleOrdered()
    ensures HeapOrdered([0, 5, 1, 6, 6, 8, 9, 7], IntOrder)
  {
    var h: seq<int> := [0, 5, 1, 6, 6, 8, 9, 7];
    ParentsUpTo7();
    forall i | 0 < i < |h| ensures IntOrder(h[Parent(i)], h[i]) <= 0 {
      assert i in {1, 2, 3, 4, 5, 6, 7};
    }
  }

  lemma ExampleDequeue()
    ensures AfterDequeue([0, 5, 1, 6, 6, 8, 9, 7], IntOrder) == [1, 5, 9, 6, 6, 8, 7]
  {
    var h: seq<int> := [0, 5, 1, 6, 6, 8, 9, 7];
    var start: seq<int> := [7, 5, 1, 6, 6, 8, 9];
    assert h[..|h| - 1][0 := 7] == start;
    assert ChildToSwap(start, IntOrder, 0, 7) == Some(2);
    SiftDownStep(start, IntOrder, 0, 7, 2);
    var s1 := Swapped(start, 0, 2);
    assert ChildToSwap(s1, IntOrder, 2, 7) == Some(6);
    SiftDownStep(s1, IntOrder, 2, 7, 6);
    var s2 := Swapped(s1, 2, 6);
    assert ChildToSwap(s2, IntOrder, 6, 7) == None;
    SiftDownStop(s2, IntOrder, 6, 7);
    assert s2 == [1, 5, 9, 6, 6, 8, 7];
  }

  /** The sift-down loop stops when no child is chosen. */
  lemma SiftDownStop<T>(h: seq<T>, cmp: (T, T) -> int, idx: nat, end: T)
    requires idx < |h| && ChildToSwap(h, cmp, idx, end) == None
    ensures SiftDown(h, cmp, idx, end) == h
  {
  }

  /** One round of the sift-down loop. */
  lemma SiftDownStep<T>(h: seq<T>, cmp: (T, T) -> int, idx: nat, end: T, c: nat)
    requires idx < |h| && ChildToSwap(h, cmp, idx, end) == Some(c)
    ensures c < |h| && SiftDown(h, cmp, idx, end) == SiftDown(Swapped(h, idx, c), cmp, c, end)
  {
  }

  lemma ParentsUpTo7()
    ensures Parent(1) == 0 && Parent(2) == 0 && Parent(3) == 1 && Parent(4) == 1
    ensures Parent(5) == 2 && Parent(6) == 2 && Parent(7) == 3
  {
  }

  /** As written, `dequeue` can even return a value that is not the smallest:
      after queueing 0, 0, 7, 0 the second dequeue yields 7 while 0 remains. */
  lemma DequeueCanMissMinimum()
    ensures AfterQueue(AfterQueue(AfterQueue(AfterQueue([], IntOrder, 0), IntOrder, 0), IntOrder, 7), IntOrder, 0) == [0, 0, 7, 0]
    ensures AfterDequeue([0, 0, 7, 0], IntOrder) == [7, 0, 0]
    ensures var h := AfterDequeue([0, 0, 7, 0], IntOrder); IntOrder(h[0], h[1]) > 0
  {
    ParentsUpTo7();
    assert AfterQueue([], IntOrder, 0) == [0];
    assert AfterQueue([0], IntOrder, 0) == [0, 0];
    assert AfterQueue([0, 0], IntOrder, 7) == [0, 0, 7];
    assert AfterQueue([0, 0, 7], IntOrder, 0) == [0, 0, 7, 0];
    var start: seq<int> := [0, 0, 7];
    assert [0, 0, 7, 0][..3][0 := 0] == start;
    assert Swapped(start, 0, 2) == [7, 0, 0];
    calc {
      AfterDequeue([0, 0, 7, 0], IntOrder);
      SiftDown(start, IntOrder, 0, 0);
      { assert ChildToSwap(start, IntOrder, 0, 0) == Some(2); }
      SiftDown([7, 0, 0], IntOrder, 2, 0);
      { assert ChildToSwap([7, 0, 0], IntOrder, 2, 0) == None; }
      [7, 0, 0];
    }
  }

  /** The child choice `dequeue` evidently intends: the right child is
      taken only when it compares below whichever of `end` and the left child
      would otherwise hold the slot. */
  function IntendedChildToSwap<T>(h: seq<T>, cmp: (T, T) -> int, idx: nat, end: T): (c: Option<nat>)
    ensures c.Some? ==> idx < c.value < |h| && Parent(c.value) == idx
  {
    var left, right := LeftChild(idx), RightChild(idx);
    var byLeft := if left < |h| && cmp(h[left], end) < 0 then Some(left) else None;
    if right < |h| && cmp(h[right], if byLeft.None? then end else h[left]) < 0 then Some(right) else byLeft
  }

  /** The intended sift-down loop, from slot `idx`. */
  function IntendedSiftDown<T>(h: seq<T>, cmp: (T, T) -> int, idx: nat, end: T): (r: seq<T>)
    requires idx < |h|
    ensures |r| == |h|
    decreases |h| - idx
  {
    match IntendedChildToSwap(h, cmp, idx, end)
    case None => h
    case Some(c) => IntendedSiftDown(Swapped(h, idx, c), cmp, c, end)
  }

  lemma {:induction false} IntendedSiftDownPermutes<T>(h: seq<T>, cmp: (T, T) -> int, idx: nat, end: T)
    requires idx < |h|
    ensures multiset(IntendedSiftDown(h, cmp, idx, end)) == multiset(h)
    decreases |h| - idx
  {
    match IntendedChildToSwap(h, cmp, idx, end)
    case None =>
    case Some(c) =>
      SwappedPermutes(h, idx, c);
      IntendedSiftDownPermutes(Swapped(h, idx, c), cmp, c, end);
  }

  /** The heap after the intended `dequeue()`. */
  function AfterIntendedDequeue<T>(h: seq<T>, cmp: (T, T) -> int): (r: seq<T>)
    ensures |h| > 0 ==> |r| == |h| - 1
    ensures |h| == 0 ==> r == []
  {
    if |h| <= 1 then []
    else
      var end := h[|h| - 1];
      var rest := h[..|h| - 1];
      IntendedSiftDown(rest[0 := end], cmp, 0, end)
  }

  /** The intended `dequeue` removes exactly the root. */
  lemma IntendedDequeuePermutes<T>(h: seq<T>, cmp: (T, T) -> int)
    requires |h| > 0
    ensures multiset(AfterIntendedDequeue(h, cmp)) == multiset(h) - multiset{h[0]}
  {
    if |h| > 1 {
      var end := h[|h| - 1];
      var rest := h[..|h| - 1];
      assert h == rest + [end];
      assert rest == [h[0]] + rest[1..];
      assert rest[0 := end] == [end] + rest[1..];
      IntendedSiftDownPermutes(rest[0 := end], cmp, 0, end);
    }
  }

  /** Heap order holds on every edge except those below `idx`, which holds
      `end`, and the parent of `idx` is already no greater than the children
      of `idx`. */
  ghost predicate OrderedExceptBelow<T>(h: seq<T>, cmp: (T, T) -> int, idx: nat, end: T) {
    && idx < |h| && h[idx] == end
    && (forall i :: 0 < i < |h| && Parent(i) != idx ==> cmp(h[Parent(i)], h[i]) <= 0)
    && (0 < idx ==> forall c :: 0 < c < |h| && Parent(c) == idx ==> cmp(h[Parent(idx)], h[c]) <= 0)
  }

  /** The slots whose parent is `idx` are its two children. */
  lemma ChildrenOf(idx: nat, c: nat)
    requires 0 < c && Parent(c) == idx
    ensures c == LeftChild(idx) || c == RightChild(idx)
  {
  }

  /** The intended choice moves up a child that compares no greater than
      `end` and than its sibling; with no choice, `end` compares no greater
      than either child. */
  lemma IntendedChoiceIsLeast<T(!new)>(h: seq<T>, cmp: (T, T) -> int, idx: nat, end: T)
    requires ConsistentComparator(cmp)
    ensures match IntendedChildToSwap(h, cmp, idx, end)
      case None => forall k :: 0 < k < |h| && Parent(k) == idx ==> cmp(end, h[k]) <= 0
      case Some(c) => cmp(h[c], end) <= 0 && forall k :: 0 < k < |h| && Parent(k) == idx && k != c ==> cmp(h[c], h[k]) <= 0
  {
    var left, right := LeftChild(idx), RightChild(idx);
    forall k | 0 < k < |h| && Parent(k) == idx ensures k == left || k == right {
      ChildrenOf(idx, k);
    }
    if left < |h| && right < |h| {
      if cmp(h[left], end) < 0 && cmp(h[right], h[left]) < 0 {
        assert cmp(h[right], end) <= 0;
      } else if cmp(h[left], end) < 0 {
        assert cmp(h[left], h[right]) <= 0;
      } else if cmp(h[right], end) < 0 {
        assert cmp(end, h[left]) <= 0;
        assert cmp(h[right], h[left]) <= 0;
      } else {
        assert cmp(end, h[left]) <= 0 && cmp(end, h[right]) <= 0;
      }
    } else if left < |h| {
      if !(cmp(h[left], end) < 0) {
        assert cmp(end, h[left]) <= 0;
      }
    }
  }

  lemma {:induction false} IntendedSiftDownRestoresOrder<T(!new)>(h: seq<T>, cmp: (T, T) -> int, idx: nat, end: T)
    requires ConsistentComparator(cmp) && OrderedExceptBelow(h, cmp, idx, end)
    ensures HeapOrdered(IntendedSiftDown(h, cmp, idx, end), cmp)
    decreases |h| - idx
  {
    IntendedChoiceIsLeast(h, cmp, idx, end);
    match IntendedChildToSwap(h, cmp, idx, end)
    case None =>
    case Some(c) =>
      var s := Swapped(h, idx, c);
      forall i | 0 < i < |s| && Parent(i) != c ensures cmp(s[Parent(i)], s[i]) <= 0 {
        if i == c {
        } else if i == idx {
          assert cmp(h[Parent(idx)], h[c]) <= 0;
        } else if Parent(i) == idx {
        } else {
          assert cmp(h[Parent(i)], h[i]) <= 0;
        }
      }
      forall k | 0 < k < |s| && Parent(k) == c ensures cmp(s[Parent(c)], s[k]) <= 0 {
        assert cmp(h[c], h[k]) <= 0;
      }
      IntendedSiftDownRestoresOrder(s, cmp, c, end);
  }

  /** The intended `dequeue` keeps an ordered heap ordered, so each dequeue
      returns a least entry (`RootIsLeast`). */
  lemma IntendedDequeueKeepsOrder<T(!new)>(h: seq<T>, cmp: (T, T) -> int)
    requires ConsistentComparator(cmp) && HeapOrdered(h, cmp)
    ensures HeapOrdered(AfterIntendedDequeue(h, cmp), cmp)
  {
    if |h| > 1 {
      var end := h[|h| - 1];
      var g := h[..|h| - 1][0 := end];
      forall i | 0 < i < |g| && Parent(i) != 0 ensures cmp(g[Parent(i)], g[i]) <= 0 {
        assert cmp(h[Parent(i)], h[i]) <= 0;
      }
      IntendedSiftDownRestoresOrder(g, cmp, 0, end);
    }
  }

  /** On the heap of `DequeueCanBreakOrder` the intended `dequeue` moves 1
      up and 7 to the vacated leaf, leaving an ordered heap. */
  lemma IntendedDequeueExample()
    ensures AfterIntendedDequeue([0, 5, 1, 6, 6, 8, 9, 7], IntOrder) == [1, 5, 7, 6, 6, 8, 9]
  {
    var start: seq<int> := [7, 5, 1, 6, 6, 8, 9];
    assert [0, 5, 1, 6, 6, 8, 9, 7][..7][0 := 7] == start;
    ParentsUpTo7();
    assert IntendedChildToSwap(start, IntOrder, 0, 7) == Some(2);
    var s1 := Swapped(start, 0, 2);
    assert s1 == [1, 5, 7, 6, 6, 8, 9];
    assert IntendedChildToSwap(s1, IntOrder, 2, 7) == None;
  }

  /** `PriorityQueue`: the comparator and the `_heap` array, a JavaScript
      array that grows and shrinks, hence a sequence field. */
  class PriorityQueue<T(!new)> {
    const comparator: (T, T) -> int
    var heap: seq<T>

    constructor (comparator: (T, T) -> int)
      ensures this.comparator == comparator && heap == []
    {
      this.comparator := comparator;
      heap := [];
    }

    /** `length()`. */
    function Length(): nat
      reads this
    {
      |heap|
    }

    /** `_swap(i, j)`. */
    method Swap(i: nat, j: nat)
      requires i < |heap| && j < |heap|
      modifies this
      ensures heap == Swapped(old(heap), i, j)
    {
      var temp := heap[i];
      heap := heap[i := heap[j]];
      heap := heap[j := temp];
    }

    /** `queue(value)`: push, then sift up (script.js:24-36). */
    method Queue(value: T)
      modifies this
      ensures heap == AfterQueue(old(heap), comparator, value)
      ensures |heap| == |old(heap)| + 1 && multiset(heap) == multiset(old(heap)) + multiset{value}
      ensures ConsistentComparator(comparator) && HeapOrdered(old(heap), comparator) ==> HeapOrdered(heap, comparator)
    {
      heap := heap + [value];
      var idx: nat := |heap| - 1;
      while idx != 0 && comparator(heap[Parent(idx)], heap[idx]) > 0
        invariant idx < |heap|
        invariant SiftUp(heap, comparator, idx) == AfterQueue(old(heap), comparator, value)
        decreases idx
      {
        Swap(idx, Parent(idx));
        idx := Parent(idx) as nat;
      }
      QueuePermutes(old(heap), comparator, value);
      if ConsistentComparator(comparator) && HeapOrdered(old(heap), comparator) {
        QueueKeepsOrder(old(heap), comparator, value);
      }
    }

    /** `dequeue()` (script.js:38-75): the old root, or nothing on an empty
      heap; the last element takes the root's place and sifts down. */
    method Dequeue() returns (root: Option<T>)
      modifies this
      ensures root == if |old(heap)| == 0 then None else Some(old(heap)[0])
      ensures heap == AfterDequeue(old(heap), comparator)
      ensures |old(heap)| > 0 ==>
        |heap| == |old(heap)| - 1 && multiset(heap) == multiset(old(heap)) - multiset{old(heap)[0]}
      ensures |old(heap)| == 0 ==> heap == []
    {
      if |heap| == 0 {
        return None;
      }
      root := Some(heap[0]);
      DequeuePermutes(heap, comparator);
      var end := heap[|heap| - 1];
      heap := heap[..|heap| - 1];
      if |heap| > 0 {
        heap := heap[0 := end];
        var idx := 0;
        var length := |heap|;
        while true
          invariant length == |heap| && idx < length
          invariant SiftDown(heap, comparator, idx, end) == AfterDequeue(old(heap), comparator)
          decreases length - idx
        {
          var left := LeftChild(idx);
          var right := RightChild(idx);
          var swapIdx: Option<nat> := None;
          if left < length && comparator(heap[left], end) < 0 {
            swapIdx := Some(left);
          }
          if right < length && (swapIdx == None || comparator(heap[right], heap[left]) < 0) {
            swapIdx := Some(right);
          }
          assert swapIdx == ChildToSwap(heap, comparator, idx, end);
          if swapIdx == None {
            break;
          }
          Swap(idx, swapIdx.value);
          idx := swapIdx.value;
        }
      }
    }

    /** `dequeue()` with the intended child choice: returns the old root,
        which is a least entry of an ordered heap, and keeps the rest ordered. */
    method IntendedDequeue() returns (root: Option<T>)
      modifies this
      ensures root == if |old(heap)| == 0 then None else Some(old(heap)[0])
      ensures heap == AfterIntendedDequeue(old(heap), comparator)
      ensures |old(heap)| > 0 ==>
        |heap| == |old(heap)| - 1 && multiset(heap) == multiset(old(heap)) - multiset{old(heap)[0]}
      ensures ConsistentComparator(comparator) && HeapOrdered(old(heap), comparator) ==>
        HeapOrdered(heap, comparator) &&
        (root.Some? ==> forall i :: 0 <= i < |old(heap)| ==> comparator(root.value, old(heap)[i]) <= 0)
    {
      if |heap| == 0 {
        return None;
      }
      root := Some(heap[0]);
      IntendedDequeuePermutes(heap, comparator);
      if ConsistentComparator(comparator) && HeapOrdered(heap, comparator) {
        IntendedDequeueKeepsOrder(heap, comparator);
        forall i | 0 <= i < |heap| ensures comparator(heap[0], heap[i]) <= 0 {
          RootIsLeast(heap, comparator, i);
        }
      }
      var end := heap[|heap| - 1];
      heap := heap[..|heap| - 1];
      if |heap| > 0 {
        heap := heap[0 := end];
        var idx := 0;
        var length := |heap|;
        while true
          invariant length == |heap| && idx < length
          invariant IntendedSiftDown(heap, comparator, idx, end) == AfterIntendedDequeue(old(heap), comparator)
          decreases length - idx
        {
          var left := LeftChild(idx);
          var right := RightChild(idx);
          var swapIdx: Option<nat> := None;
          if left < length && comparator(heap[left], end) < 0 {
            swapIdx := Some(left);
          }
          if right < length && comparator(heap[right], if swapIdx == None then end else heap[left]) < 0 {
            swapIdx := Some(right);
          }
          assert swapIdx == IntendedChildToSwap(heap, comparator, idx, end);
          if swapIdx == None {
            break;
          }
          Swap(idx, swapIdx.value);
          idx := swapIdx.value;
        }
      }
    }
  }
}
