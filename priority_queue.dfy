/**
 * The generic priority queue: an array-list heap of (element, priority)
 * slots, ordered by a comparator so that the root ranks highest, and a hash
 * map from each queued element to the slot holding it, kept in step by every
 * swap. A max-comparator gives a max-queue, a reversed one a min-queue.
 */
module PriorityQueues {
  import opened Errors
  import opened Ordering
  import opened HeapSpec

  class PriorityQueue<T(==), P(!new)> {
    /** The priority order: `cmp(x, y) > 0` when x ranks above y. */
    const cmp: (P, P) -> int
    /** The heap; slot 0 is the root. */
    var heap: seq<QueueElement<T, P>>
    /** The shortcut map: element to the index of its slot. */
    var shortcut: map<T, nat>

    /** The shortcut map indexes the heap exactly. */
    ghost predicate Indexed()
      reads this
    {
      IndexedBy(heap, shortcut)
    }

    /** The class invariant: a comparator, an exact index, and the heap property. */
    ghost predicate Valid()
      reads this
    {
      IsComparator(cmp) && Indexed() && HeapOrdered(cmp, heap)
    }

    /** The queue's contents: each queued element with its priority. */
    ghost function Priorities(): map<T, P>
      reads this
      requires Indexed()
    {
      PriorityMap(heap, shortcut)
    }

    /** An empty queue ordered by `comparator`. */
    constructor(comparator: (P, P) -> int)
      requires IsComparator(comparator)
      ensures cmp == comparator && Valid()
      ensures heap == [] && Priorities() == map[]
    {
      cmp := comparator;
      heap := [];
      shortcut := map[];
    }

    /**
     * The bulk constructor: the slots (elements[k], priorities[k]) in order,
     * then heapified bottom-up. Fails when a priority is missing.
     */
    static method Build(elements: seq<T>, priorities: seq<P>, comparator: (P, P) -> int)
      returns (r: Result<PriorityQueue<T, P>>)
      requires IsComparator(comparator)
      requires forall j, k :: 0 <= j < k < |elements| ==> elements[j] != elements[k]
      ensures |priorities| < |elements| <==> r.Err?
      ensures r.Err? ==> r.error == IndexOutOfRange
      ensures r.Ok? ==> fresh(r.value) && r.value.cmp == comparator && r.value.Valid()
      ensures r.Ok? ==> r.value.heap == BuildHeap(comparator, Zip(elements, priorities[..|elements|]))
      ensures r.Ok? ==> r.value.Priorities() == ZipMap(elements, priorities[..|elements|])
    {
      if |priorities| < |elements| {
        return Err(IndexOutOfRange);
      }
      var q := new PriorityQueue(comparator);
      q.AppendAll(elements, priorities[..|elements|]);
      ghost var h0, s0 := q.heap, q.shortcut;
      q.HeapifyAll();
      BuildHeapOrders(comparator, h0);
      PriorityMapOfPermutation(h0, s0, q.heap, q.shortcut);
      return Ok(q);
    }

    /** The bulk constructor's first loop: appends and indexes (elements[k], priorities[k]) in order. */
    method AppendAll(elements: seq<T>, priorities: seq<P>)
      requires heap == [] && shortcut == map[]
      requires |priorities| == |elements|
      requires forall j, k :: 0 <= j < k < |elements| ==> elements[j] != elements[k]
      modifies this
      ensures heap == Zip(elements, priorities) && Indexed()
      ensures Priorities() == ZipMap(elements, priorities)
    {
      var i := 0;
      while i < |elements|
        invariant 0 <= i <= |elements|
        invariant heap == Zip(elements[..i], priorities[..i])
        invariant Indexed()
        invariant Priorities() == ZipMap(elements[..i], priorities[..i])
      {
        var x := QueueElement(elements[i], priorities[i]);
        assert forall k :: 0 <= k < i ==> heap[k].elem == elements[k] != x.elem;
        AppendIndexed(heap, shortcut, x);
        heap := heap + [x];
        shortcut := shortcut[x.elem := |heap| - 1];
        ZipStep(elements, priorities, i);
        i := i + 1;
      }
      assert elements[..i] == elements && priorities[..i] == priorities;
    }

    /** The bulk constructor's second loop: heapify every slot that has a child, last first. */
    method HeapifyAll()
      requires Indexed()
      modifies this
      ensures heap == BuildHeap(cmp, old(heap)) && Indexed()
    {
      ghost var h0 := heap;
      var j: nat := |heap| / 2;
      while j > 0
        invariant j <= |h0| / 2 && |heap| == |h0|
        invariant heap == BuildFrom(cmp, h0, j)
        invariant Indexed()
      {
        j := j - 1;
        assert BuildFrom(cmp, h0, j) == HeapifyDown(cmp, BuildFrom(cmp, h0, j + 1), j);
        Heapify(j);
      }
      assert heap == BuildFrom(cmp, h0, 0);
    }

    /** Exchanges slots i and j and points the shortcut map at their new slots. */
    method Swap(i: nat, j: nat)
      requires Indexed() && i < |heap| && j < |heap|
      modifies this
      ensures heap == HeapSpec.Swap(old(heap), i, j)
      ensures Indexed()
    {
      var temp := heap[i];
      heap := heap[i := heap[j]];
      if heap[j].elem in shortcut {
        shortcut := shortcut[heap[j].elem := i];
      }
      heap := heap[j := temp];
      if temp.elem in shortcut {
        shortcut := shortcut[temp.elem := j];
      }
    }

    /** The index `max` returns: the first of `indexes` whose slot ranks highest. */
    method Max(indexes: seq<nat>) returns (m: nat)
      requires |indexes| > 0 && forall k :: 0 <= k < |indexes| ==> indexes[k] < |heap|
      ensures m == Largest(cmp, heap, indexes)
    {
      m := indexes[0];
      var i := 1;
      while i < |indexes|
        invariant 1 <= i <= |indexes|
        invariant m == Largest(cmp, heap, indexes[..i])
      {
        assert indexes[..i + 1][..i] == indexes[..i];
        if cmp(heap[indexes[i]].prior, heap[m].prior) > 0 {
          m := indexes[i];
        }
        i := i + 1;
      }
      assert indexes[..i] == indexes;
    }

    /** Restores order below slot i by swapping it with its highest-ranking child, recursively. */
    method Heapify(i: nat)
      requires Indexed() && i < |heap|
      modifies this
      ensures heap == HeapifyDown(cmp, old(heap), i)
      ensures Indexed()
      decreases |heap| - i
    {
      var largest := Max([i, Left(|heap|, i), Right(|heap|, i)]);
      HeapifyPickIsLargest(cmp, heap, i);
      if largest != i {
        assert largest > i;
        Swap(largest, i);
        Heapify(largest);
      }
    }

    /** Moves slot i up while its parent ranks strictly below it (recursive). */
    method SiftUpFrom(i: nat)
      requires Indexed() && i < |heap|
      modifies this
      ensures heap == SiftUp(cmp, old(heap), i)
      ensures Indexed()
      decreases i
    {
      if i == 0 || cmp(heap[Parent(i)].prior, heap[i].prior) >= 0 {
        return;
      }
      Swap(i, Parent(i));
      SiftUpFrom(Parent(i));
    }

    /** Appends the slot (element, priority) and indexes it; the queue is then a heap except at the new slot. */
    method Append(element: T, priority: P)
      requires Indexed() && HeapOrdered(cmp, heap) && element !in shortcut
      modifies this
      ensures heap == old(heap) + [QueueElement(element, priority)]
      ensures Indexed() && OrderedExceptUp(cmp, heap, |heap| - 1)
      ensures Priorities() == old(Priorities())[element := priority]
    {
      AppendOrderedExceptUp(cmp, heap, QueueElement(element, priority));
      AppendIndexed(heap, shortcut, QueueElement(element, priority));
      heap := heap + [QueueElement(element, priority)];
      shortcut := shortcut[element := |heap| - 1];
    }

    /**
     * Iterative insertion: appends the slot and swaps it up while its
     * parent ranks strictly below it. A queued element is refused.
     */
    method Insert(element: T, priority: P) returns (o: Outcome)
      requires Valid()
      modifies this
      ensures Valid()
      ensures element in old(shortcut) <==> o.Fail?
      ensures o.Fail? ==> o.error == DuplicateElement
      ensures o.Fail? ==> heap == old(heap) && shortcut == old(shortcut)
      ensures o.Pass? ==> heap == SiftUp(cmp, old(heap) + [QueueElement(element, priority)], |old(heap)|)
      ensures o.Pass? ==> Priorities() == old(Priorities())[element := priority]
    {
      if element in shortcut {
        return Fail(DuplicateElement);
      }
      Append(element, priority);
      ghost var h1 := heap;
      ghost var s1 := shortcut;
      var i: nat := |heap| - 1;
      while i > 0 && cmp(heap[Parent(i)].prior, heap[i].prior) < 0
        invariant i < |heap| && Indexed()
        invariant SiftUp(cmp, heap, i) == SiftUp(cmp, h1, |h1| - 1)
        decreases i
      {
        Swap(i, Parent(i));
        i := Parent(i);
      }
      SiftUpOrders(cmp, h1, |h1| - 1);
      PriorityMapOfPermutation(h1, s1, heap, shortcut);
      return Pass;
    }

    /** Recursive insertion: the same outcome as Insert. */
    method InsertRec(element: T, priority: P) returns (o: Outcome)
      requires Valid()
      modifies this
      ensures Valid()
      ensures element in old(shortcut) <==> o.Fail?
      ensures o.Fail? ==> o.error == DuplicateElement
      ensures o.Fail? ==> heap == old(heap) && shortcut == old(shortcut)
      ensures o.Pass? ==> heap == SiftUp(cmp, old(heap) + [QueueElement(element, priority)], |old(heap)|)
      ensures o.Pass? ==> Priorities() == old(Priorities())[element := priority]
    {
      if element in shortcut {
        return Fail(DuplicateElement);
      }
      Append(element, priority);
      ghost var h1 := heap;
      ghost var s1 := shortcut;
      SiftUpFrom(|heap| - 1);
      SiftUpOrders(cmp, h1, |h1| - 1);
      PriorityMapOfPermutation(h1, s1, heap, shortcut);
      return Pass;
    }

    /**
     * Swaps the last slot into the root, drops the old root and unindexes
     * its element; returns that element, which ranked highest.
     */
    method DetachRoot() returns (out: T)
      requires Indexed() && |heap| > 0
      modifies this
      ensures heap == RemoveRoot(old(heap)) && Indexed()
      ensures out == old(heap)[0].elem
      ensures Priorities() == old(Priorities()) - {out}
    {
      ghost var h0, s0 := heap, shortcut;
      Swap(|heap| - 1, 0);
      RemoveRootIndexed(h0, s0, heap, shortcut);
      var qe := heap[|heap| - 1];
      out := qe.elem;
      heap, shortcut := heap[..|heap| - 1], shortcut - {out};
      assert heap == RemoveRoot(h0);
    }

    /** Iterative extraction; ties between children go to the right child. */
    method Extract() returns (r: Result<T>)
      requires Valid()
      modifies this
      ensures Valid()
      ensures |old(heap)| == 0 <==> r.Err?
      ensures r.Err? ==> r.error == EmptyQueue
      ensures r.Err? ==> heap == old(heap) && shortcut == old(shortcut)
      ensures r.Ok? ==> r.value == old(heap)[0].elem && r.value in old(Priorities())
      ensures r.Ok? ==> Priorities() == old(Priorities()) - {r.value}
      ensures r.Ok? ==> forall e :: e in old(Priorities()) ==> cmp(old(Priorities())[r.value], old(Priorities())[e]) >= 0
      ensures r.Ok? && |old(heap)| > 1 ==> heap == SiftDown(cmp, RemoveRoot(old(heap)), 0)
    {
      if |heap| == 0 {
        return Err(EmptyQueue);
      }
      RootPriorityIsMax(cmp, heap, shortcut);
      var out := DetachRoot();
      if |heap| == 0 {
        return Ok(out);
      }
      ghost var h1 := heap;
      ghost var s1 := shortcut;
      RemoveRootOrdered(cmp, old(heap));
      var i := 0;
      CompareSelf(cmp, heap[i].prior);
      while cmp(heap[i].prior, heap[Left(|heap|, i)].prior) < 0 || cmp(heap[i].prior, heap[Right(|heap|, i)].prior) < 0
        invariant i < |heap| && |heap| == |h1| && Indexed()
        invariant SiftDown(cmp, heap, i) == SiftDown(cmp, h1, 0)
        invariant cmp(heap[i].prior, heap[i].prior) == 0
        decreases |heap| - i
      {
        CompareSelf(cmp, heap[Left(|heap|, i)].prior);
        CompareSelf(cmp, heap[Right(|heap|, i)].prior);
        if cmp(heap[Left(|heap|, i)].prior, heap[Right(|heap|, i)].prior) > 0 {
          var l := Left(|heap|, i);
          Swap(i, l);
          i := l;
        } else {
          var rt := Right(|heap|, i);
          Swap(i, rt);
          i := rt;
        }
      }
      SiftDownOrders(cmp, h1, 0, 0);
      PriorityMapOfPermutation(h1, s1, heap, shortcut);
      return Ok(out);
    }

    /** Recursive extraction: detaches the root, then heapifies from slot 0. */
    method ExtractRec() returns (r: Result<T>)
      requires Valid()
      modifies this
      ensures Valid()
      ensures |old(heap)| == 0 <==> r.Err?
      ensures r.Err? ==> r.error == EmptyQueue
      ensures r.Err? ==> heap == old(heap) && shortcut == old(shortcut)
      ensures r.Ok? ==> r.value == old(heap)[0].elem && r.value in old(Priorities())
      ensures r.Ok? ==> Priorities() == old(Priorities()) - {r.value}
      ensures r.Ok? ==> forall e :: e in old(Priorities()) ==> cmp(old(Priorities())[r.value], old(Priorities())[e]) >= 0
      ensures r.Ok? && |old(heap)| > 1 ==> heap == HeapifyDown(cmp, RemoveRoot(old(heap)), 0)
    {
      if |heap| == 0 {
        return Err(EmptyQueue);
      }
      RootPriorityIsMax(cmp, heap, shortcut);
      var out := DetachRoot();
      if |heap| > 0 {
        ghost var h1 := heap;
        ghost var s1 := shortcut;
        RemoveRootOrdered(cmp, old(heap));
        Heapify(0);
        HeapifyDownOrders(cmp, h1, 0, 0);
        PriorityMapOfPermutation(h1, s1, heap, shortcut);
      }
      return Ok(out);
    }

    /**
     * Gives a queued element a new priority, then sifts its slot up when the
     * new priority ranks strictly higher and heapifies it otherwise.
     */
    method UpdatePriority(element: T, priority: P) returns (o: Outcome)
      requires Valid()
      modifies this
      ensures Valid()
      ensures element !in old(shortcut) <==> o.Fail?
      ensures o.Fail? ==> o.error == ElementNotFound
      ensures o.Fail? ==> heap == old(heap) && shortcut == old(shortcut)
      ensures o.Pass? ==> heap == Reprioritize(cmp, old(heap), old(shortcut)[element], priority)
      ensures o.Pass? ==> Priorities() == old(Priorities())[element := priority]
    {
      if element !in shortcut {
        return Fail(ElementNotFound);
      }
      var index := shortcut[element];
      var oldPrior := heap[index].prior;
      heap := heap[index := QueueElement(element, priority)];
      ghost var h1 := heap;
      ghost var s1 := shortcut;
      assert PriorityMap(h1, s1) == old(Priorities())[element := priority];
      if cmp(priority, oldPrior) > 0 {
        SiftUpFrom(index);
      } else {
        Heapify(index);
      }
      ReprioritizeOrders(cmp, old(heap), index, priority);
      PriorityMapOfPermutation(h1, s1, heap, shortcut);
      return Pass;
    }

    /** Whether the queue holds no slot. */
    function IsEmpty(): (b: bool)
      reads this
      requires Indexed()
      ensures b <==> Priorities() == map[]
      ensures b <==> |heap| == 0
    {
      if |heap| > 0 then assert heap[0].elem in Priorities(); false
      else true
    }

    /** Whether `element` is queued, answered from the shortcut map. */
    function Contains(element: T): (b: bool)
      reads this
      requires Indexed()
      ensures b <==> exists k :: 0 <= k < |heap| && heap[k].elem == element
    {
      IndexedElements(heap, shortcut, element);
      element in shortcut
    }
  }
}
