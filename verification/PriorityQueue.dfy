/** Binary heaps as sequences of priorities: what swapping a node with its parent or a child keeps. */
module HeapOrder {

  function Parent(r: int): int
    requires r > 0
  {
    (r - 1) / 2
  }

  function LeftChild(r: int): int {
    2 * r + 1
  }

  function RightChild(r: int): int {
    2 * r + 2
  }

  /** Node `i` is not above its parent. */
  predicate BelowParent(p: seq<real>, i: int) {
    0 < i < |p| ==> p[Parent(i)] >= p[i]
  }

  ghost predicate Heap(p: seq<real>) {
    forall i :: 0 < i < |p| ==> BelowParent(p, i)
  }

  /** The order holds everywhere but around node `k`, and would hold if `k` were taken out. */
  ghost predicate HeapAround(p: seq<real>, k: int) {
    && 0 <= k < |p|
    && (forall i :: 0 < i < |p| && i != k && Parent(i) != k ==> BelowParent(p, i))
    && (forall c :: 0 < c < |p| && k > 0 && Parent(c) == k ==> p[Parent(k)] >= p[c])
  }

  function Swap<T>(s: seq<T>, i: int, j: int): (r: seq<T>)
    requires 0 <= i < |s| && 0 <= j < |s|
    ensures |r| == |s|
  {
    s[i := s[j]][j := s[i]]
  }

  lemma SwapMembers<T>(s: seq<T>, i: int, j: int)
    requires 0 <= i < |s| && 0 <= j < |s|
    ensures forall x :: x in s <==> x in Swap(s, i, j)
  {
    var r := Swap(s, i, j);
    forall x | x in s
      ensures x in r
    {
      var k :| 0 <= k < |s| && s[k] == x;
      assert r[if k == i then j else if k == j then i else k] == x;
    }
  }

  lemma Children(r: int, c: int)
    requires c > 0 && r >= 0
    ensures Parent(c) == r <==> c == LeftChild(r) || c == RightChild(r)
    ensures 0 <= Parent(c) < c
  {
  }

  lemma HeapIsAround(p: seq<real>, k: int, priority: real)
    requires Heap(p) && 0 <= k < |p|
    ensures HeapAround(p[k := priority], k)
  {
    forall c | 0 < c < |p| && k > 0 && Parent(c) == k
      ensures p[Parent(k)] >= p[c]
    {
      assert BelowParent(p, k) && BelowParent(p, c);
    }
    forall i | 0 < i < |p| && i != k && Parent(i) != k
      ensures BelowParent(p[k := priority], i)
    {
      assert BelowParent(p, i);
    }
  }

  lemma AroundIsHeap(p: seq<real>, k: int)
    requires HeapAround(p, k) && BelowParent(p, k)
    requires BelowParent(p, LeftChild(k)) && BelowParent(p, RightChild(k))
    ensures Heap(p)
  {
    forall i | 0 < i < |p|
      ensures BelowParent(p, i)
    {
      Children(k, i);
    }
  }

  /** A node above its parent moves up. */
  lemma {:induction false} MoveUp(p: seq<real>, k: int)
    requires HeapAround(p, k) && k > 0 && p[Parent(k)] < p[k]
    ensures var q := Swap(p, k, Parent(k));
            && HeapAround(q, Parent(k))
            && BelowParent(q, LeftChild(Parent(k))) && BelowParent(q, RightChild(Parent(k)))
  {
    var m := Parent(k);
    var q := Swap(p, k, m);
    forall i | 0 < i < |p| && i != m && Parent(i) != m
      ensures BelowParent(q, i)
    {
      if Parent(i) == k {
        assert p[m] >= p[i];
      } else {
        assert BelowParent(p, i);
      }
    }
    forall c | 0 < c < |p| && Parent(c) == m
      ensures BelowParent(q, c)
      ensures m > 0 ==> q[Parent(m)] >= q[c]
    {
      assert c != k ==> BelowParent(p, c);
      assert m > 0 ==> BelowParent(p, m);
    }
    Children(m, LeftChild(m));
    Children(m, RightChild(m));
  }

  /** A node below its greater child moves down. */
  lemma {:induction false} MoveDown(p: seq<real>, k: int, c: int)
    requires HeapAround(p, k) && BelowParent(p, k) && 0 < c < |p| && Parent(c) == k && p[c] > p[k]
    requires forall d :: 0 < d < |p| && Parent(d) == k ==> p[d] <= p[c]
    ensures HeapAround(Swap(p, k, c), c) && BelowParent(Swap(p, k, c), c)
  {
    var q := Swap(p, k, c);
    forall i | 0 < i < |p| && i != c && Parent(i) != c
      ensures BelowParent(q, i)
    {
      if Parent(i) != k && i != k {
        assert BelowParent(p, i);
      }
    }
    forall d | 0 < d < |p| && Parent(d) == c
      ensures q[Parent(c)] >= q[d]
    {
      assert BelowParent(p, d);
    }
  }

  lemma {:induction false} RootIsGreatest(p: seq<real>, i: int)
    requires Heap(p) && 0 <= i < |p|
    ensures p[i] <= p[0]
    decreases i
  {
    if i > 0 {
      assert BelowParent(p, i);
      RootIsGreatest(p, Parent(i));
    }
  }

  lemma InRange(p: seq<real>, k: int)
    requires HeapAround(p, k)
    ensures 0 <= k < |p|
  {
  }

  lemma ChildrenBelow(p: seq<real>, k: int, largest: int)
    requires 0 <= k < |p| && 0 < largest < |p| && Parent(largest) == k && p[largest] <= p[k]
    requires forall d :: 0 < d < |p| && Parent(d) == k ==> p[d] <= p[largest]
    ensures BelowParent(p, LeftChild(k)) && BelowParent(p, RightChild(k))
  {
    Children(k, LeftChild(k));
    Children(k, RightChild(k));
  }

  lemma NoChildren(p: seq<real>, k: int)
    requires k >= |p| / 2
    ensures BelowParent(p, LeftChild(k)) && BelowParent(p, RightChild(k))
  {
  }

  /** Adding a leaf, or dropping the last one. */
  lemma AddLeaf(p: seq<real>, priority: real)
    requires Heap(p)
    ensures HeapAround(p + [priority], |p|)
  {
    var q := p + [priority];
    forall i | 0 < i < |q| && i != |p|
      ensures BelowParent(q, i)
    {
      assert BelowParent(p, i);
    }
  }

  lemma DropLeaf(p: seq<real>)
    requires Heap(p) && p != []
    ensures Heap(p[..|p| - 1])
  {
    var q := p[..|p| - 1];
    forall i | 0 < i < |q|
      ensures BelowParent(q, i)
    {
      assert BelowParent(p, i);
    }
  }

  /** The last leaf takes the place of node `k`. */
  lemma ReplaceByLeaf(p: seq<real>, k: int)
    requires Heap(p) && 0 <= k < |p| - 1
    ensures HeapAround(Swap(p, k, |p| - 1)[..|p| - 1], k)
  {
    DropLeaf(p);
    var n := |p| - 1;
    assert Swap(p, k, n)[..n] == p[..n][k := p[n]];
    HeapIsAround(p[..n], k, p[n]);
  }
}

/** The priority queue: an array heap of items that know their own position. */
module PriorityQueues {
  import opened HeapOrder

  const DEFAULT_HEAP_SIZE := 15

  class XanQueueItem<T> {
    var priority: real
    var position: int
    const element: T

    constructor (priority: real, position: int, element: T)
      ensures this.priority == priority && this.position == position && this.element == element
    {
      this.priority, this.position, this.element := priority, position, element;
    }
  }

  class XanQueue<T(==)> {
    var items: array<XanQueueItem?<T>>
    var size: nat
    ghost var handles: seq<XanQueueItem<T>>   // the items in array order
    ghost var priorities: seq<real>           // and their priorities

    /** Every item sits at its own position, the spare slots are null, and the capacity is odd. */
    ghost predicate Shape()
      reads this, items, handles
    {
      && size == |handles| == |priorities| <= items.Length && items.Length % 2 == 1
      && (forall i :: 0 <= i < size ==>
           items[i] == handles[i] && handles[i].position == i && handles[i].priority == priorities[i])
      && (forall i :: size <= i < items.Length ==> items[i] == null)
    }

    ghost predicate Valid()
      reads this, items, handles
    {
      Shape() && Heap(priorities)
    }

    constructor ()
      ensures Valid() && handles == [] && fresh(items) && items.Length == DEFAULT_HEAP_SIZE
    {
      items := new XanQueueItem?<T>[DEFAULT_HEAP_SIZE](_ => null);
      size := 0;
      handles, priorities := [], [];
    }

    method HeapSwapItem(p1: nat, p2: nat)
      requires Shape() && p1 < size && p2 < size
      modifies this`handles, this`priorities, items, handles
      ensures Shape()
      ensures handles == Swap(old(handles), p1, p2) && priorities == Swap(old(priorities), p1, p2)
      ensures forall h <- old(handles) :: h in handles && h.priority == old(h.priority)
      ensures forall h <- handles :: h in old(handles)
    {
      var from, other := items[p1], items[p2];
      items[p2] := from;
      items[p2].position := p2;
      items[p1] := other;
      items[p1].position := p1;
      SwapMembers(handles, p1, p2);
      handles, priorities := Swap(handles, p1, p2), Swap(priorities, p1, p2);
    }

    method HeapShiftUp(start: nat) returns (position: nat)
      requires Shape() && HeapAround(priorities, start)
      modifies this`handles, this`priorities, items, handles
      ensures Shape() && HeapAround(priorities, position) && BelowParent(priorities, position)
      ensures forall h <- old(handles) :: h in handles && h.priority == old(h.priority)
      ensures forall h <- handles :: h in old(handles)
    {
      position := start;
      while position != 0
        invariant Shape() && HeapAround(priorities, position)
        invariant forall h <- old(handles) :: h in handles && h.priority == old(h.priority)
        invariant forall h <- handles :: h in old(handles)
        decreases position
      {
        var newPosition := Parent(position);
        if items[position].priority <= items[newPosition].priority {
          break;
        }
        MoveUp(priorities, position);
        HeapSwapItem(position, newPosition);
        position := newPosition;
      }
    }

    /** The child with the greater priority; the odd capacity keeps the right slot in bounds. */
    method LargestChild(position: nat) returns (largest: nat)
      requires Shape() && position < size / 2
      ensures 0 < largest < size && Parent(largest) == position
      ensures forall d :: 0 < d < size && Parent(d) == position ==> priorities[d] <= priorities[largest]
    {
      var leftChild, rightChild := LeftChild(position), RightChild(position);
      var best: int := position;
      if items[leftChild] == null {
        best := rightChild;
      } else if items[rightChild] == null {
        best := leftChild;
      } else if items[leftChild].priority >= items[rightChild].priority {
        best := leftChild;
      } else if items[leftChild].priority <= items[rightChild].priority {
        best := rightChild;
      }
      forall d | 0 < d < size && Parent(d) == position
        ensures priorities[d] <= priorities[best]
      {
        Children(position, d);
      }
      Children(position, best);
      largest := best;
    }

    method HeapShiftDown(start: nat)
      requires Shape() && HeapAround(priorities, start) && BelowParent(priorities, start)
      modifies this`handles, this`priorities, items, handles
      ensures Valid()
      ensures forall h <- old(handles) :: h in handles && h.priority == old(h.priority)
      ensures forall h <- handles :: h in old(handles)
    {
      hide Heap, HeapAround, BelowParent, Swap;
      var position := start;
      InRange(priorities, position);
      while !(position >= size / 2)
        invariant Shape() && position < size && HeapAround(priorities, position) && BelowParent(priorities, position)
        invariant forall h <- old(handles) :: h in handles && h.priority == old(h.priority)
        invariant forall h <- handles :: h in old(handles)
        decreases size - position
      {
        var largest := LargestChild(position);
        if items[largest].priority <= items[position].priority {
          ChildrenBelow(priorities, position, largest);
          AroundIsHeap(priorities, position);
          return;
        }
        MoveDown(priorities, position, largest);
        HeapSwapItem(position, largest);
        position := largest;
      }
      NoChildren(priorities, position);
      AroundIsHeap(priorities, position);
    }

    /** Restores the order after the priority of one item has changed. */
    method Reposition(position: nat)
      requires Shape() && HeapAround(priorities, position)
      modifies this`handles, this`priorities, items, handles
      ensures Valid()
      ensures forall h <- old(handles) :: h in handles && h.priority == old(h.priority)
      ensures forall h <- handles :: h in old(handles)
    {
      var newPosition := HeapShiftUp(position);
      HeapShiftDown(newPosition);
    }

    /** Every item other than `h` is still there with its priority, and `h` is not. */
    twostate predicate Without(new h: XanQueueItem<T>)
      requires old(Valid())
      reads this, items, handles
    {
      && h in old(handles) && h !in handles
      && (forall x <- old(handles) :: x != h ==> x in handles && x.priority == old(x.priority))
      && (forall x <- handles :: x in old(handles))
    }

    method DropLast() returns (result: T)
      requires Shape() && size > 0
      modifies this`handles, this`priorities, this`size, items
      ensures Shape() && size == old(size) - 1
      ensures handles == old(handles)[..size] && priorities == old(priorities)[..size]
      ensures result == old(handles)[size].element && old(handles)[size] !in handles
    {
      size := size - 1;
      assert handles[size].position == size;
      result := items[size].element;
      items[size] := null;
      handles, priorities := handles[..size], priorities[..size];
    }

    /** Moves the last item into the place of another one, which leaves the queue. */
    method ReplaceByLast(position: nat) returns (result: T)
      requires Valid() && position < size - 1
      modifies this`handles, this`priorities, this`size, items, handles
      ensures Shape() && size == old(size) - 1 && HeapAround(priorities, position)
      ensures result == old(handles)[position].element && Without(old(handles)[position])
    {
      hide Heap, HeapAround, BelowParent, Swap;
      ReplaceByLeaf(priorities, position);
      SwapEnd(handles, position);
      HeapSwapItem(position, size - 1);
      AllButLast(handles);
      result := DropLast();
    }

    /** Takes out the item at a position: the last one moves into its place. */
    method HeapExtractItem(position: nat) returns (result: T, ghost h: XanQueueItem<T>)
      requires Valid() && position < size
      modifies this`handles, this`priorities, this`size, items, handles
      ensures Valid() && size == old(size) - 1
      ensures h == old(handles[position]) && result == h.element && Without(h)
    {
      hide Heap, HeapAround, BelowParent, Swap;
      h := handles[position];
      if position != size - 1 {
        result := ReplaceByLast(position);
        Reposition(position);
      } else {
        DropLeaf(priorities);
        AllButLast(handles);
        result := DropLast();
      }
    }

    /** Doubles a full array; the capacity stays odd and the new slots are null. */
    method Grow()
      requires Shape() && size == items.Length
      modifies this`items
      ensures Shape() && fresh(items) && items.Length == 2 * size + 1
    {
      var newItems := new XanQueueItem?<T>[2 * (size + 1) - 1](_ => null);
      for i := 0 to size
        modifies newItems
        invariant forall k :: 0 <= k < i ==> newItems[k] == items[k]
        invariant forall k :: i <= k < newItems.Length ==> newItems[k] == null
      {
        newItems[i] := items[i];
      }
      items := newItems;
    }

    /** Puts a new item behind the last one. */
    method AppendItem(data: T, priority: real) returns (result: XanQueueItem<T>)
      requires Shape() && size < items.Length
      modifies this`handles, this`priorities, this`size, items
      ensures Shape() && size == old(size) + 1
      ensures fresh(result) && result.element == data && result.priority == priority
      ensures handles == old(handles) + [result] && priorities == old(priorities) + [priority]
      ensures forall x <- old(handles) :: x.priority == old(x.priority)
    {
      result := new XanQueueItem(priority, size, data);
      items[size] := result;
      size, handles, priorities := size + 1, handles + [result], priorities + [priority];
    }

    /** Adds an element and returns its handle. */
    method Put(data: T, priority: real) returns (result: XanQueueItem<T>)
      requires Valid()
      modifies this, items, handles
      ensures Valid() && size == old(size) + 1 && (items == old(items) || fresh(items))
      ensures fresh(result) && result.element == data && result.priority == priority && result in handles
      ensures forall x <- old(handles) :: x in handles && x.priority == old(x.priority)
      ensures forall x <- handles :: x == result || x in old(handles)
    {
      hide Heap, HeapAround, BelowParent, Swap;
      if size == items.Length {
        Grow();
      }
      var position := size;
      AddLeaf(priorities, priority);
      result := AppendItem(data, priority);
      Reposition(position);
    }

    /** Takes out an element of the greatest priority. The source waits while the queue is empty. */
    method Get() returns (result: T, ghost h: XanQueueItem<T>)
      requires Valid() && size > 0
      modifies this`handles, this`priorities, this`size, items, handles
      ensures Valid() && size == old(size) - 1
      ensures result == h.element && Without(h)
      ensures forall x <- old(handles) :: old(x.priority) <= old(h.priority)
    {
      forall i | 0 <= i < size
        ensures handles[i].priority <= handles[0].priority
      {
        RootIsGreatest(priorities, i);
      }
      result, h := HeapExtractItem(0);
    }

    method ChangeItemPriority(handle: XanQueueItem<T>, priority: real)
      requires Valid() && handle in handles
      modifies this`handles, this`priorities, items, handles
      ensures Valid() && size == old(size) && handle.priority == priority
      ensures forall x <- old(handles) :: x in handles && (x != handle ==> x.priority == old(x.priority))
      ensures forall x <- handles :: x in old(handles)
    {
      hide Heap, HeapAround, BelowParent, Swap;
      var position := handle.position;
      HeapIsAround(priorities, position, priority);
      handle.priority := priority;
      priorities := priorities[position := priority];
      Reposition(position);
    }

    method RemoveItem(handle: XanQueueItem<T>)
      requires Valid() && handle in handles
      modifies this`handles, this`priorities, this`size, items, handles
      ensures Valid() && size == old(size) - 1 && Without(handle)
    {
      var element, h := HeapExtractItem(handle.position);
    }

    /** A handle of the element, null when it is not in the queue. */
    method Find(data: T) returns (result: XanQueueItem?<T>)
      requires Valid()
      ensures result == null <==> forall h <- handles :: h.element != data
      ensures result != null ==> result in handles && result.element == data
    {
      for count := 0 to items.Length
        invariant forall i :: 0 <= i < count && i < size ==> handles[i].element != data
      {
        if items[count] != null && items[count].element == data {
          assert items[count] == handles[count];
          return items[count];
        }
      }
      return null;
    }

    predicate IsEmpty()
      requires Valid()
      reads this, items, handles
    {
      size == 0
    }

    /** The greatest priority in the queue, -1 when it is empty. */
    method HeadPriority() returns (p: real)
      requires Valid()
      ensures size == 0 ==> p == -1.0
      ensures size > 0 ==> (exists h <- handles :: h.priority == p) && forall h <- handles :: h.priority <= p
    {
      if size == 0 {
        return -1.0;
      }
      forall i | 0 <= i < size
        ensures handles[i].priority <= handles[0].priority
      {
        RootIsGreatest(priorities, i);
      }
      assert handles[0] in handles;
      return items[0].priority;
    }
  }

  lemma AllButLast<T>(s: seq<T>)
    requires s != []
    ensures forall x :: x in s <==> x == s[|s| - 1] || x in s[..|s| - 1]
  {
    assert s == s[..|s| - 1] + [s[|s| - 1]];
  }

  lemma SwapEnd<T>(s: seq<T>, i: nat)
    requires i < |s|
    ensures Swap(s, i, |s| - 1)[|s| - 1] == s[i]
  {
  }
}
