/**
 The heap with which an image server keeps the groups of largest free space, in place on an
 array, and its rebuilding in the order of load.
 */
module MinHeaps {
  datatype Element = Element(groupId: string, freeSpace: int, pendingWrites: int, writingCount: int)

  /** The two orders the heap is built in: by free space, and by load. */
  datatype Order = BySpace | ByLoad

  /** Whether a child `c` is to stand above its parent `p`. */
  predicate Smaller(order: Order, c: Element, p: Element) {
    match order
    case BySpace => p.freeSpace > c.freeSpace
    case ByLoad =>
      if p.pendingWrites == 0 && c.pendingWrites == 0 then p.writingCount > c.writingCount
      else p.pendingWrites > c.pendingWrites
  }

  /** What is compared in the order of load: pending writes, and the writing count only between
      elements that have none. */
  function LoadKey(e: Element): (int, int) {
    (e.pendingWrites, if e.pendingWrites == 0 then e.writingCount else 0)
  }

  lemma LoadIsLexicographic(x: Element, y: Element)
    ensures Smaller(ByLoad, x, y) <==>
            LoadKey(x).0 < LoadKey(y).0 || (LoadKey(x).0 == LoadKey(y).0 && LoadKey(x).1 < LoadKey(y).1)
  {
  }

  /** Both orders are strict weak orders. */
  lemma WeakOrder(order: Order, x: Element, y: Element, z: Element)
    ensures !Smaller(order, x, x)
    ensures Smaller(order, x, y) && Smaller(order, y, z) ==> Smaller(order, x, z)
    ensures !Smaller(order, x, y) && !Smaller(order, y, z) ==> !Smaller(order, x, z)
  {
  }

  // ---------------------------------------------------------------------------
  // Heaps in sequences.

  function Parent(c: nat): int { (c - 1) / 2 }

  /** From the node `lo` on, no child is smaller than its parent. */
  predicate Heap(order: Order, a: seq<Element>, lo: int) {
    forall c :: 0 < c < |a| && lo <= Parent(c) ==> !Smaller(order, a[c], a[Parent(c)])
  }

  /** A heap but for the element at `at`, which may be larger than its children. */
  predicate HeapBut(order: Order, a: seq<Element>, lo: int, at: int) {
    && (forall c :: 0 < c < |a| && lo <= Parent(c) && Parent(c) != at ==> !Smaller(order, a[c], a[Parent(c)]))
    && (forall c :: 0 < c < |a| && Parent(c) == at && 0 < at && lo <= Parent(at) ==> !Smaller(order, a[c], a[Parent(at)]))
  }

  function Swap(a: seq<Element>, i: nat, j: nat): seq<Element>
    requires i < |a| && j < |a|
  {
    a[i := a[j]][j := a[i]]
  }

  /** Swapping the element with its smallest child moves the fault down to that child. */
  lemma SiftStep(order: Order, a: seq<Element>, lo: nat, at: nat, s: nat)
    requires HeapBut(order, a, lo, at) && lo <= at < s < |a| && Parent(s) == at
    requires Smaller(order, a[s], a[at])
    requires forall c :: 0 < c < |a| && Parent(c) == at ==> !Smaller(order, a[c], a[s])
    ensures HeapBut(order, Swap(a, at, s), lo, s)
    ensures multiset(Swap(a, at, s)) == multiset(a)
  {
    var b := Swap(a, at, s);
    forall c | 0 < c < |b| && lo <= Parent(c) && Parent(c) != s
      ensures !Smaller(order, b[c], b[Parent(c)])
    {
      if Parent(c) == at {
        WeakOrder(order, a[c], a[s], a[s]);
        assert b[at] == a[s];
        if c == s { WeakOrder(order, a[s], a[at], a[s]); }
      } else if c == at {
        assert !Smaller(order, a[s], a[Parent(at)]);
      }
    }
  }

  lemma SiftDone(order: Order, a: seq<Element>, lo: nat, at: nat)
    requires HeapBut(order, a, lo, at)
    requires forall c :: 0 < c < |a| && Parent(c) == at ==> !Smaller(order, a[c], a[at])
    ensures Heap(order, a, lo)
  {
  }

  /** The root of a heap is a smallest element. */
  lemma {:induction false} RootSmallest(order: Order, a: seq<Element>, i: nat)
    requires Heap(order, a, 0) && i < |a|
    ensures !Smaller(order, a[i], a[0])
    decreases i
  {
    if i == 0 {
      WeakOrder(order, a[0], a[0], a[0]);
    } else {
      RootSmallest(order, a, Parent(i));
      WeakOrder(order, a[i], a[Parent(i)], a[0]);
    }
  }

  // ---------------------------------------------------------------------------
  // The largest of those offered.

  /** `kept` are `k` of the elements offered, or all of them if there are no more, and none of the
      others has more free space than one of those kept. */
  predicate TopK(kept: multiset<Element>, offered: multiset<Element>, k: nat) {
    && kept <= offered && |kept| == (if |offered| < k then |offered| else k)
    && forall x, y :: x in offered - kept && y in kept ==> x.freeSpace <= y.freeSpace
  }

  lemma KeepAll(kept: multiset<Element>, offered: multiset<Element>, k: nat, e: Element)
    requires TopK(kept, offered, k) && |kept| < k
    ensures TopK(kept + multiset{e}, offered + multiset{e}, k)
  {
    SameSize(kept, offered);
  }

  lemma SameSize(kept: multiset<Element>, offered: multiset<Element>)
    requires kept <= offered && |kept| == |offered|
    ensures kept == offered
  {
    assert offered == kept + (offered - kept);
  }

  lemma Refuse(kept: multiset<Element>, offered: multiset<Element>, k: nat, e: Element)
    requires TopK(kept, offered, k) && |kept| == k
    requires forall y :: y in kept ==> e.freeSpace <= y.freeSpace
    ensures TopK(kept, offered + multiset{e}, k)
  {
    SubsetSize(kept, offered);
    forall x, y | x in offered + multiset{e} - kept && y in kept ensures x.freeSpace <= y.freeSpace {
      if x != e { assert x in offered - kept; }
    }
  }

  lemma SubsetSize(s: multiset<Element>, t: multiset<Element>)
    requires s <= t
    ensures |s| <= |t|
  {
    assert t == s + (t - s);
  }

  /** A larger element takes the place of a smallest one kept. */
  lemma Replace(kept: multiset<Element>, offered: multiset<Element>, k: nat, root: Element, e: Element)
    requires TopK(kept, offered, k) && |kept| == k && root in kept
    requires forall y :: y in kept ==> root.freeSpace <= y.freeSpace
    requires e.freeSpace > root.freeSpace
    ensures TopK(kept - multiset{root} + multiset{e}, offered + multiset{e}, k)
  {
    var kept' := kept - multiset{root} + multiset{e};
    SubsetSize(kept, offered);
    assert kept == (kept - multiset{root}) + multiset{root};
    forall x, y | x in offered + multiset{e} - kept' && y in kept' ensures x.freeSpace <= y.freeSpace {
      assert (offered + multiset{e} - kept')[x] <= (offered - kept)[x] + (multiset{root})[x];
      assert y == e || y in kept;
      if x != root { assert x in offered - kept; assert root in kept; }
    }
  }

  /** Any elements offered that have more free space than `e` are fewer than `k`. */
  ghost predicate AmongBest(e: Element, offered: multiset<Element>, k: nat) {
    forall s: multiset<Element> :: s <= offered && (forall x :: x in s ==> x.freeSpace > e.freeSpace) ==> |s| < k
  }

  lemma KeptAmongBest(kept: multiset<Element>, offered: multiset<Element>, k: nat, e: Element)
    requires TopK(kept, offered, k) && e in kept
    ensures AmongBest(e, offered, k)
  {
    forall s: multiset<Element> | s <= offered && (forall x :: x in s ==> x.freeSpace > e.freeSpace)
      ensures |s| < k
    {
      assert forall x :: x in s ==> (offered - kept)[x] == 0;
      assert e !in s;
      assert forall x :: s[x] <= (kept - multiset{e})[x];
      SubsetSize(s, kept - multiset{e});
      assert kept == (kept - multiset{e}) + multiset{e};
    }
  }

  // ---------------------------------------------------------------------------
  // The heap on its array.

  class MinHeap {
    const capacity: nat
    var size: nat
    const arr: array<Element>

    ghost predicate Valid()
      reads this, arr
    {
      && arr.Length == capacity && size <= capacity
      && (size == capacity ==> Heap(BySpace, arr[..size], 0))
    }

    ghost function Contents(): seq<Element>
      requires size <= arr.Length
      reads this, arr
    {
      arr[..size]
    }

    constructor (capacity: nat)
      ensures Valid() && fresh(arr) && this.capacity == capacity && Contents() == []
    {
      this.capacity := capacity;
      size := 0;
      arr := new Element[capacity](_ => Element("", 0, 0, 0));
    }

    /** The smaller one of a node and a child it may have. */
    method Compare(order: Order, parent: nat, child: nat) returns (smallest: nat)
      requires parent < size <= arr.Length
      ensures smallest == if child < size && Smaller(order, arr[child], arr[parent]) then child else parent
    {
      smallest := parent;
      if child < size {
        if Smaller(order, arr[child], arr[parent]) {
          smallest := child;
        }
      }
    }

    /** Lets the element at `index` sink to its place, in the heap from `lo` on. */
    method Heapify(order: Order, index: nat, ghost lo: nat)
      requires lo <= index < size <= arr.Length && HeapBut(order, Contents(), lo, index)
      modifies arr
      ensures Heap(order, Contents(), lo) && multiset(Contents()) == old(multiset(Contents()))
      decreases size - index
    {
      hide Heap, HeapBut, Smaller;
      var left, right := 2 * index + 1, 2 * index + 2;
      var smallest := Compare(order, index, left);
      smallest := Compare(order, smallest, right);
      ghost var a := Contents();
      assert forall c :: 0 < c < |a| && Parent(c) == index ==> c == left || c == right;
      WeakOrderAt(order, a, index, left, right, smallest);
      if smallest != index {
        arr[smallest], arr[index] := arr[index], arr[smallest];
        assert Contents() == Swap(a, index, smallest);
        SiftStep(order, a, lo, index, smallest);
        Heapify(order, smallest, lo);
      } else {
        SiftDone(order, a, lo, index);
      }
    }

    method Build(order: Order)
      requires size <= arr.Length
      modifies arr
      ensures Heap(order, Contents(), 0) && multiset(Contents()) == old(multiset(Contents()))
    {
      hide HeapBut;
      var index := size / 2 - 1;
      while index >= 0
        invariant -1 <= index < size || size == 0
        invariant Heap(order, Contents(), index + 1) && multiset(Contents()) == old(multiset(Contents()))
      {
        assert HeapBut(order, Contents(), index, index) by { AlmostHeap(order, Contents(), index); }
        Heapify(order, index, index);
        index := index - 1;
      }
    }

    /** Offers an element. What is kept stays the `capacity` largest of all those offered. */
    method AddElement(ele: Element, ghost offered: multiset<Element>)
      requires Valid() && capacity > 0 && TopK(multiset(Contents()), offered, capacity)
      modifies this, arr
      ensures Valid() && TopK(multiset(Contents()), offered + multiset{ele}, capacity)
    {
      hide TopK, Heap;
      ghost var kept := Contents();
      if size < capacity {
        arr[size] := ele;
        size := size + 1;
        assert Contents() == kept + [ele];
        KeepAll(multiset(kept), offered, capacity, ele);
        if size == capacity {
          Build(BySpace);
        }
        return;
      }
      forall y | y in multiset(kept) ensures arr[0].freeSpace <= y.freeSpace { LeastAt(kept, y); }
      if ele.freeSpace > arr[0].freeSpace {
        Replace(multiset(kept), offered, capacity, kept[0], ele);
        arr[0] := ele;
        assert Contents() == kept[0 := ele];
        ReplaceFirst(kept, ele);
        Build(BySpace);
      } else {
        Refuse(multiset(kept), offered, capacity, ele);
      }
    }

    /** The group at an index, or an error. */
    method GetElementGroupId(index: nat) returns (id: string, ok: bool)
      requires size <= arr.Length
      ensures ok <==> index < size
      ensures ok ==> id == Contents()[index].groupId
    {
      if index >= size {
        return "", false;
      }
      return arr[index].groupId, true;
    }
  }

  lemma ReplaceFirst(a: seq<Element>, e: Element)
    requires a != []
    ensures multiset(a[0 := e]) == multiset(a) - multiset{a[0]} + multiset{e}
  {
  }

  lemma WeakOrderAt(order: Order, a: seq<Element>, index: nat, left: nat, right: nat, smallest: nat)
    requires index < |a| && left == 2 * index + 1 && right == left + 1
    requires var s := if left < |a| && Smaller(order, a[left], a[index]) then left else index;
             smallest == if right < |a| && Smaller(order, a[right], a[s]) then right else s
    ensures smallest < |a| && (smallest == index || (Parent(smallest) == index && Smaller(order, a[smallest], a[index])))
    ensures forall c :: 0 < c < |a| && Parent(c) == index ==> !Smaller(order, a[c], a[smallest])
  {
  }

  lemma AlmostHeap(order: Order, a: seq<Element>, index: nat)
    requires Heap(order, a, index + 1)
    ensures HeapBut(order, a, index, index)
  {
  }

  lemma LeastAt(a: seq<Element>, y: Element)
    requires Heap(BySpace, a, 0) && a != [] && y in multiset(a)
    ensures a[0].freeSpace <= y.freeSpace
  {
    var i :| 0 <= i < |a| && a[i] == y;
    RootSmallest(BySpace, a, i);
  }
}
