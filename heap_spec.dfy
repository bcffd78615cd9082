/**
 * The binary heap behind the priority queue, as values: a sequence of
 * (element, priority) slots where slot i has its children at 2i+1 and 2i+2.
 * Each way the queue restores heap order (sift-up, the recursive heapify, the
 * iterative sift-down of extract, the bottom-up bulk build) is a function
 * here, with the lemmas that it yields a heap and keeps the same slots.
 */
module HeapSpec {
  import opened Ordering
  import opened Errors

  /** One queue slot: an element and its priority. */
  datatype QueueElement<T, P> = QueueElement(elem: T, prior: P)

  /** The index map s records, for each queued element, the one slot holding it. */
  ghost predicate IndexedBy<T, P>(h: seq<QueueElement<T, P>>, s: map<T, nat>)
  {
    && (forall e :: e in s ==> s[e] < |h| && h[s[e]].elem == e)
    && (forall k :: 0 <= k < |h| ==> h[k].elem in s && s[h[k].elem] == k)
  }

  /** The queue as a map from each queued element to its priority. */
  ghost function PriorityMap<T, P>(h: seq<QueueElement<T, P>>, s: map<T, nat>): (m: map<T, P>)
    requires IndexedBy(h, s)
    ensures m.Keys == s.Keys
  {
    map e | e in s :: h[s[e]].prior
  }

  /** An indexed element is one some slot holds, and the slots hold distinct elements. */
  lemma IndexedElements<T, P>(h: seq<QueueElement<T, P>>, s: map<T, nat>, e: T)
    requires IndexedBy(h, s)
    ensures e in s <==> exists k :: 0 <= k < |h| && h[k].elem == e
    ensures forall j, k :: 0 <= j < k < |h| ==> h[j].elem != h[k].elem
  {
  }

  /** Appending a slot for an unqueued element and indexing it keeps the index exact. */
  lemma AppendIndexed<T, P>(h: seq<QueueElement<T, P>>, s: map<T, nat>, x: QueueElement<T, P>)
    requires IndexedBy(h, s) && x.elem !in s
    ensures IndexedBy(h + [x], s[x.elem := |h|])
    ensures PriorityMap(h + [x], s[x.elem := |h|]) == PriorityMap(h, s)[x.elem := x.prior]
  {
    var h', s' := h + [x], s[x.elem := |h|];
    forall k | 0 <= k < |h'|
      ensures h'[k].elem in s' && s'[h'[k].elem] == k
    {
      if k < |h| {
        assert h'[k] == h[k];
      }
    }
  }

  /** Dropping the last slot and unindexing its element keeps the index exact. */
  lemma RemoveLastIndexed<T, P>(h: seq<QueueElement<T, P>>, s: map<T, nat>)
    requires IndexedBy(h, s) && |h| > 0
    ensures IndexedBy(h[..|h| - 1], s - {h[|h| - 1].elem})
    ensures PriorityMap(h[..|h| - 1], s - {h[|h| - 1].elem}) == PriorityMap(h, s) - {h[|h| - 1].elem}
  {
    var h', s' := h[..|h| - 1], s - {h[|h| - 1].elem};
    forall e | e in s'
      ensures s'[e] < |h'| && h'[s'[e]].elem == e
    {
      assert s[e] != |h| - 1;
    }
  }

  /** Swapping the last slot into the root and dropping the old root keeps the index exact. */
  lemma RemoveRootIndexed<T, P>(h0: seq<QueueElement<T, P>>, s0: map<T, nat>, h1: seq<QueueElement<T, P>>, s1: map<T, nat>)
    requires IndexedBy(h0, s0) && IndexedBy(h1, s1) && |h0| > 0
    requires h1 == Swap(h0, |h0| - 1, 0)
    ensures h1[..|h1| - 1] == RemoveRoot(h0) && h1[|h1| - 1] == h0[0]
    ensures IndexedBy(RemoveRoot(h0), s1 - {h0[0].elem})
    ensures PriorityMap(RemoveRoot(h0), s1 - {h0[0].elem}) == PriorityMap(h0, s0) - {h0[0].elem}
  {
    PriorityMapOfPermutation(h0, s0, h1, s1);
    RemoveLastIndexed(h1, s1);
  }

  /** Two indexed heaps holding the same slots map elements to the same priorities. */
  lemma PriorityMapOfPermutation<T, P>(h1: seq<QueueElement<T, P>>, s1: map<T, nat>,
                                       h2: seq<QueueElement<T, P>>, s2: map<T, nat>)
    requires IndexedBy(h1, s1) && IndexedBy(h2, s2) && multiset(h1) == multiset(h2)
    ensures PriorityMap(h1, s1) == PriorityMap(h2, s2)
  {
    forall e | e in s1
      ensures e in s2 && h2[s2[e]] == h1[s1[e]]
    {
      var x := h1[s1[e]];
      assert x in multiset(h2);
      var k :| 0 <= k < |h2| && h2[k] == x;
    }
    forall e | e in s2
      ensures e in s1
    {
      var x := h2[s2[e]];
      assert x in multiset(h1);
      var k :| 0 <= k < |h1| && h1[k] == x;
    }
  }

  /** Index of the parent of slot i; Java's truncating (i - 1) / 2, only used for i > 0. */
  function Parent(i: nat): (p: nat)
    requires i > 0
    ensures p < i
    ensures 2 * p + 1 == i || 2 * p + 2 == i
  {
    (i - 1) / 2
  }

  /** Left child of slot i in a heap of `size` slots, or i itself when it has none. */
  function Left(size: nat, i: nat): (r: nat)
    ensures i < size ==> r < size
    ensures r != i <==> 2 * i + 1 < size
    ensures r != i ==> r > i && Parent(r) == i
  {
    if 2 * i + 1 < size then 2 * i + 1 else i
  }

  /** Right child of slot i in a heap of `size` slots, or i itself when it has none. */
  function Right(size: nat, i: nat): (r: nat)
    ensures i < size ==> r < size
    ensures r != i <==> 2 * i + 2 < size
    ensures r != i ==> r > i && Parent(r) == i
  {
    if 2 * i + 2 < size then 2 * i + 2 else i
  }

  /** A slot with a parent is a left or a right child of that parent. */
  lemma ChildIsLeftOrRight(size: nat, k: nat)
    requires 0 < k < size
    ensures k == Left(size, Parent(k)) || k == Right(size, Parent(k))
  {
  }

  /** The heap with slots i and j exchanged. */
  function Swap<T, P>(h: seq<QueueElement<T, P>>, i: nat, j: nat): (r: seq<QueueElement<T, P>>)
    requires i < |h| && j < |h|
    ensures |r| == |h| && r[i] == h[j] && r[j] == h[i]
    ensures forall k :: 0 <= k < |h| && k != i && k != j ==> r[k] == h[k]
    ensures multiset(r) == multiset(h)
  {
    var r := h[i := h[j]][j := h[i]];
    assert multiset(h[i := h[j]]) == multiset(h) - multiset{h[i]} + multiset{h[j]};
    r
  }

  /** The pair (parent of k, k) is in order: the parent ranks at least as high. */
  ghost predicate OrderedAt<T, P>(cmp: (P, P) -> int, h: seq<QueueElement<T, P>>, k: nat)
    requires 0 < k < |h|
  {
    cmp(h[Parent(k)].prior, h[k].prior) >= 0
  }

  /** Every pair whose parent is at index lo or later is in order. */
  ghost predicate OrderedFrom<T, P>(cmp: (P, P) -> int, h: seq<QueueElement<T, P>>, lo: nat)
  {
    forall k :: 0 < k < |h| && lo <= Parent(k) ==> OrderedAt(cmp, h, k)
  }

  /** The heap property: no slot outranks its parent. */
  ghost predicate HeapOrdered<T, P>(cmp: (P, P) -> int, h: seq<QueueElement<T, P>>)
  {
    OrderedFrom(cmp, h, 0)
  }

  /**
   * A heap except that slot i may outrank its parent; the parent of i
   * still ranks at least as high as the children of i.
   */
  ghost predicate OrderedExceptUp<T, P>(cmp: (P, P) -> int, h: seq<QueueElement<T, P>>, i: nat)
  {
    && i < |h|
    && (forall k :: 0 < k < |h| && k != i ==> OrderedAt(cmp, h, k))
    && (forall k :: 0 < k < |h| && i > 0 && Parent(k) == i ==> cmp(h[Parent(i)].prior, h[k].prior) >= 0)
  }

  /**
   * Every pair whose parent is at lo or later is in order, except that the
   * children of slot i may outrank i; the parent of i, when it is at lo or
   * later, still ranks at least as high as the children of i.
   */
  ghost predicate OrderedExceptDown<T, P>(cmp: (P, P) -> int, h: seq<QueueElement<T, P>>, lo: nat, i: nat)
  {
    && lo <= i < |h|
    && (forall k :: 0 < k < |h| && lo <= Parent(k) && Parent(k) != i ==> OrderedAt(cmp, h, k))
    && (forall k :: 0 < k < |h| && Parent(k) == i && i > 0 && lo <= Parent(i) ==> cmp(h[Parent(i)].prior, h[k].prior) >= 0)
  }

  // ---------------------------------------------------------------------
  // Sift-up (insert, insertRec, the raising branch of updatePriority)
  // ---------------------------------------------------------------------

  /** Moves slot i up while its parent ranks strictly below it. */
  function SiftUp<T, P>(cmp: (P, P) -> int, h: seq<QueueElement<T, P>>, i: nat): (r: seq<QueueElement<T, P>>)
    requires i < |h|
    ensures |r| == |h| && multiset(r) == multiset(h)
    decreases i
  {
    if i == 0 || cmp(h[Parent(i)].prior, h[i].prior) >= 0 then h
    else SiftUp(cmp, Swap(h, i, Parent(i)), Parent(i))
  }

  /** One sift-up step keeps the heap-except-one shape, one level higher. */
  lemma SwapUpStep<T, P(!new)>(cmp: (P, P) -> int, h: seq<QueueElement<T, P>>, i: nat)
    requires IsComparator(cmp) && OrderedExceptUp(cmp, h, i)
    requires i > 0 && cmp(h[Parent(i)].prior, h[i].prior) < 0
    ensures OrderedExceptUp(cmp, Swap(h, i, Parent(i)), Parent(i))
  {
    var p := Parent(i);
    var s := Swap(h, i, p);
    forall k | 0 < k < |s| && k != p
      ensures OrderedAt(cmp, s, k)
    {
      if k == i {
        assert s[p] == h[i] && s[i] == h[p];
      } else if Parent(k) == i {
        assert s[i] == h[p] && s[k] == h[k];
      } else if Parent(k) == p {
        assert OrderedAt(cmp, h, k);
        assert s[p] == h[i] && s[k] == h[k];
      } else {
        assert OrderedAt(cmp, h, k);
        assert s[Parent(k)] == h[Parent(k)] && s[k] == h[k];
      }
    }
    forall k | 0 < k < |s| && p > 0 && Parent(k) == p
      ensures cmp(s[Parent(p)].prior, s[k].prior) >= 0
    {
      var g := Parent(p);
      assert OrderedAt(cmp, h, p);
      assert s[g] == h[g];
      if k != i {
        assert OrderedAt(cmp, h, k);
        assert s[k] == h[k];
      }
    }
  }

  /** Sift-up turns a heap-except-at-i into a heap. */
  lemma {:induction false} SiftUpOrders<T, P(!new)>(cmp: (P, P) -> int, h: seq<QueueElement<T, P>>, i: nat)
    requires IsComparator(cmp) && OrderedExceptUp(cmp, h, i)
    ensures HeapOrdered(cmp, SiftUp(cmp, h, i))
    decreases i
  {
    if i == 0 || cmp(h[Parent(i)].prior, h[i].prior) >= 0 {
      assert forall k :: 0 < k < |h| ==> OrderedAt(cmp, h, k);
    } else {
      SwapUpStep(cmp, h, i);
      SiftUpOrders(cmp, Swap(h, i, Parent(i)), Parent(i));
    }
  }

  /** A slot appended to a heap may only break order with its parent. */
  lemma AppendOrderedExceptUp<T, P>(cmp: (P, P) -> int, h: seq<QueueElement<T, P>>, x: QueueElement<T, P>)
    requires HeapOrdered(cmp, h)
    ensures OrderedExceptUp(cmp, h + [x], |h|)
  {
    var s := h + [x];
    forall k | 0 < k < |s| && k != |h|
      ensures OrderedAt(cmp, s, k)
    {
      assert OrderedAt(cmp, h, k);
    }
  }

  // ---------------------------------------------------------------------
  // max and the recursive heapify (heapify, extractRec, updatePriority)
  // ---------------------------------------------------------------------

  /**
   * Position in `ids` of the index the queue's max picks: scanning left to
   * right, a later index replaces the current pick only when it ranks
   * strictly higher.
   */
  function LargestAt<T, P>(cmp: (P, P) -> int, h: seq<QueueElement<T, P>>, ids: seq<nat>): (j: nat)
    requires |ids| > 0 && forall k :: 0 <= k < |ids| ==> ids[k] < |h|
    ensures j < |ids|
    decreases |ids|
  {
    if |ids| == 1 then 0
    else
      var j := LargestAt(cmp, h, ids[..|ids| - 1]);
      if cmp(h[ids[|ids| - 1]].prior, h[ids[j]].prior) > 0 then |ids| - 1 else j
  }

  /** The index the queue's max returns among `ids`. */
  function Largest<T, P>(cmp: (P, P) -> int, h: seq<QueueElement<T, P>>, ids: seq<nat>): (m: nat)
    requires |ids| > 0 && forall k :: 0 <= k < |ids| ==> ids[k] < |h|
    ensures m in ids && m < |h|
  {
    ids[LargestAt(cmp, h, ids)]
  }

  /** The pick ranks at least as high as every listed index. */
  lemma {:induction false} LargestDominates<T, P(!new)>(cmp: (P, P) -> int, h: seq<QueueElement<T, P>>, ids: seq<nat>)
    requires IsComparator(cmp)
    requires |ids| > 0 && forall k :: 0 <= k < |ids| ==> ids[k] < |h|
    ensures forall k :: 0 <= k < |ids| ==> cmp(h[Largest(cmp, h, ids)].prior, h[ids[k]].prior) >= 0
    decreases |ids|
  {
    var m := Largest(cmp, h, ids);
    CompareSelf(cmp, h[m].prior);
    if |ids| > 1 {
      var n := |ids| - 1;
      var pre := ids[..n];
      LargestDominates(cmp, h, pre);
      forall k | 0 <= k < n
        ensures cmp(h[m].prior, h[ids[k]].prior) >= 0
      {
        assert pre[k] == ids[k];
      }
    }
  }

  /** The pick ranks strictly higher than every index listed before it: ties go to the earliest. */
  lemma {:induction false} LargestIsEarliest<T, P(!new)>(cmp: (P, P) -> int, h: seq<QueueElement<T, P>>, ids: seq<nat>)
    requires IsComparator(cmp)
    requires |ids| > 0 && forall k :: 0 <= k < |ids| ==> ids[k] < |h|
    ensures forall k :: 0 <= k < LargestAt(cmp, h, ids) ==> cmp(h[Largest(cmp, h, ids)].prior, h[ids[k]].prior) > 0
    decreases |ids|
  {
    if |ids| > 1 {
      var n := |ids| - 1;
      var pre := ids[..n];
      var jp := LargestAt(cmp, h, pre);
      assert pre[jp] == ids[jp];
      if LargestAt(cmp, h, ids) == n {
        LargestDominates(cmp, h, pre);
        forall k | 0 <= k < n
          ensures cmp(h[ids[n]].prior, h[ids[k]].prior) > 0
        {
          assert pre[k] == ids[k];
        }
      } else {
        LargestIsEarliest(cmp, h, pre);
        forall k | 0 <= k < jp
          ensures cmp(h[ids[jp]].prior, h[ids[k]].prior) > 0
        {
          assert pre[k] == ids[k];
        }
      }
    }
  }

  /** The slot heapify(i) picks, max(i, left(i), right(i)), written out for three indexes. */
  function HeapifyPick<T, P>(cmp: (P, P) -> int, h: seq<QueueElement<T, P>>, i: nat): (m: nat)
    requires i < |h|
    ensures m == i || m == Left(|h|, i) || m == Right(|h|, i)
  {
    var l, r := Left(|h|, i), Right(|h|, i);
    var a := if cmp(h[l].prior, h[i].prior) > 0 then l else i;
    if cmp(h[r].prior, h[a].prior) > 0 then r else a
  }

  /** The written-out pick is what max returns on (i, left(i), right(i)). */
  lemma HeapifyPickIsLargest<T, P>(cmp: (P, P) -> int, h: seq<QueueElement<T, P>>, i: nat)
    requires i < |h|
    ensures HeapifyPick(cmp, h, i) == Largest(cmp, h, [i, Left(|h|, i), Right(|h|, i)])
  {
    var l, r := Left(|h|, i), Right(|h|, i);
    var ids := [i, l, r];
    assert ids[..2] == [i, l] && ids[..2][..1] == [i];
    var a := LargestAt(cmp, h, ids[..2]);
    assert a == if cmp(h[l].prior, h[i].prior) > 0 then 1 else 0;
    assert ids[a] == if cmp(h[l].prior, h[i].prior) > 0 then l else i;
    assert LargestAt(cmp, h, ids) == if cmp(h[r].prior, h[ids[a]].prior) > 0 then 2 else a;
  }

  /** Heapify's pick ranks at least as high as slot i and both its children. */
  lemma HeapifyPickDominates<T, P(!new)>(cmp: (P, P) -> int, h: seq<QueueElement<T, P>>, i: nat)
    requires IsComparator(cmp) && i < |h|
    ensures cmp(h[HeapifyPick(cmp, h, i)].prior, h[i].prior) >= 0
    ensures cmp(h[HeapifyPick(cmp, h, i)].prior, h[Left(|h|, i)].prior) >= 0
    ensures cmp(h[HeapifyPick(cmp, h, i)].prior, h[Right(|h|, i)].prior) >= 0
  {
    var l, r := Left(|h|, i), Right(|h|, i);
    CompareSelf(cmp, h[i].prior);
    CompareSelf(cmp, h[l].prior);
    CompareSelf(cmp, h[r].prior);
  }

  /** The heap after heapify(i): swap i with its largest child and recurse until i wins. */
  function HeapifyDown<T, P>(cmp: (P, P) -> int, h: seq<QueueElement<T, P>>, i: nat): (r: seq<QueueElement<T, P>>)
    requires i < |h|
    ensures |r| == |h| && multiset(r) == multiset(h)
    ensures forall k :: 0 <= k < i ==> r[k] == h[k]
    decreases |h| - i
  {
    var m := HeapifyPick(cmp, h, i);
    if m == i then h
    else HeapifyDown(cmp, Swap(h, m, i), m)
  }

  /** When slot i ranks at least as high as both its children, the order is complete. */
  lemma StopDown<T, P(!new)>(cmp: (P, P) -> int, h: seq<QueueElement<T, P>>, lo: nat, i: nat)
    requires IsComparator(cmp) && OrderedExceptDown(cmp, h, lo, i)
    requires cmp(h[i].prior, h[Left(|h|, i)].prior) >= 0
    requires cmp(h[i].prior, h[Right(|h|, i)].prior) >= 0
    ensures OrderedFrom(cmp, h, lo)
  {
    forall k | 0 < k < |h| && lo <= Parent(k)
      ensures OrderedAt(cmp, h, k)
    {
      if Parent(k) == i {
        ChildIsLeftOrRight(|h|, k);
      }
    }
  }

  /**
   * Exchanging slot i with a child c that ranks at least as high as i and as
   * both children of i moves the disorder one level down, to c.
   */
  lemma SwapDownStep<T, P(!new)>(cmp: (P, P) -> int, h: seq<QueueElement<T, P>>, lo: nat, i: nat, c: nat)
    requires IsComparator(cmp) && OrderedExceptDown(cmp, h, lo, i)
    requires c == Left(|h|, i) || c == Right(|h|, i)
    requires c != i
    requires cmp(h[c].prior, h[i].prior) >= 0
    requires cmp(h[c].prior, h[Left(|h|, i)].prior) >= 0
    requires cmp(h[c].prior, h[Right(|h|, i)].prior) >= 0
    ensures OrderedExceptDown(cmp, Swap(h, i, c), lo, c)
  {
    var s := Swap(h, i, c);
    assert Parent(c) == i;
    forall k | 0 < k < |s| && lo <= Parent(k) && Parent(k) != c
      ensures OrderedAt(cmp, s, k)
    {
      if k == c {
        assert s[i] == h[c] && s[c] == h[i];
      } else if Parent(k) == i {
        ChildIsLeftOrRight(|h|, k);
        assert s[i] == h[c] && s[k] == h[k];
      } else if k == i {
        assert s[Parent(i)] == h[Parent(i)] && s[i] == h[c];
      } else {
        assert OrderedAt(cmp, h, k);
        assert s[Parent(k)] == h[Parent(k)] && s[k] == h[k];
      }
    }
    forall k | 0 < k < |s| && Parent(k) == c && lo <= Parent(c)
      ensures cmp(s[Parent(c)].prior, s[k].prior) >= 0
    {
      assert OrderedAt(cmp, h, k);
      assert s[k] == h[k] && s[i] == h[c];
    }
  }

  /** Heapify turns a heap-except-below-i (from lo on) into a heap from lo on. */
  lemma {:induction false} HeapifyDownOrders<T, P(!new)>(cmp: (P, P) -> int, h: seq<QueueElement<T, P>>, lo: nat, i: nat)
    requires IsComparator(cmp) && OrderedExceptDown(cmp, h, lo, i)
    ensures OrderedFrom(cmp, HeapifyDown(cmp, h, i), lo)
    decreases |h| - i
  {
    var m := HeapifyPick(cmp, h, i);
    HeapifyPickDominates(cmp, h, i);
    if m == i {
      StopDown(cmp, h, lo, i);
    } else {
      SwapDownStep(cmp, h, lo, i, m);
      assert Swap(h, m, i) == Swap(h, i, m);
      HeapifyDownOrders(cmp, Swap(h, m, i), lo, m);
    }
  }

  // ---------------------------------------------------------------------
  // The iterative sift-down of extract
  // ---------------------------------------------------------------------

  /**
   * The heap after extract's loop from slot i: while i ranks strictly below a
   * child, swap it with the left child when that ranks strictly above the
   * right one, and with the right child otherwise.
   */
  function SiftDown<T, P(!new)>(cmp: (P, P) -> int, h: seq<QueueElement<T, P>>, i: nat): (r: seq<QueueElement<T, P>>)
    requires IsComparator(cmp) && i < |h|
    ensures |r| == |h| && multiset(r) == multiset(h)
    decreases |h| - i
  {
    var l, r := Left(|h|, i), Right(|h|, i);
    CompareSelf(cmp, h[i].prior);
    if cmp(h[i].prior, h[l].prior) < 0 || cmp(h[i].prior, h[r].prior) < 0 then
      if cmp(h[l].prior, h[r].prior) > 0 then SiftDown(cmp, Swap(h, i, l), l)
      else SiftDown(cmp, Swap(h, i, r), r)
    else h
  }

  /** Extract's sift-down turns a heap-except-below-i (from lo on) into a heap from lo on. */
  lemma {:induction false} SiftDownOrders<T, P(!new)>(cmp: (P, P) -> int, h: seq<QueueElement<T, P>>, lo: nat, i: nat)
    requires IsComparator(cmp) && OrderedExceptDown(cmp, h, lo, i)
    ensures OrderedFrom(cmp, SiftDown(cmp, h, i), lo)
    decreases |h| - i
  {
    var l, r := Left(|h|, i), Right(|h|, i);
    CompareSelf(cmp, h[i].prior);
    if cmp(h[i].prior, h[l].prior) < 0 || cmp(h[i].prior, h[r].prior) < 0 {
      CompareSelf(cmp, h[l].prior);
      CompareSelf(cmp, h[r].prior);
      if cmp(h[l].prior, h[r].prior) > 0 {
        SwapDownStep(cmp, h, lo, i, l);
        SiftDownOrders(cmp, Swap(h, i, l), lo, l);
      } else {
        SwapDownStep(cmp, h, lo, i, r);
        SiftDownOrders(cmp, Swap(h, i, r), lo, r);
      }
    } else {
      StopDown(cmp, h, lo, i);
    }
  }

  // ---------------------------------------------------------------------
  // Bulk build, extraction, priority update
  // ---------------------------------------------------------------------

  /** Slots in the order the bulk constructor adds them: (array[k], priorities[k]). */
  function Zip<T, P>(elems: seq<T>, priors: seq<P>): (r: seq<QueueElement<T, P>>)
    requires |elems| == |priors|
    ensures |r| == |elems|
    ensures forall k :: 0 <= k < |r| ==> r[k] == QueueElement(elems[k], priors[k])
  {
    seq(|elems|, k requires 0 <= k < |elems| => QueueElement(elems[k], priors[k]))
  }

  /** The priority map the bulk constructor's first loop builds: later entries overwrite earlier ones. */
  function ZipMap<T, P>(elems: seq<T>, priors: seq<P>): (m: map<T, P>)
    requires |elems| == |priors|
    decreases |elems|
  {
    if |elems| == 0 then map[]
    else ZipMap(elems[..|elems| - 1], priors[..|elems| - 1])[elems[|elems| - 1] := priors[|elems| - 1]]
  }

  /** One more (element, priority) pair extends the slots by one and overwrites one map entry. */
  lemma ZipStep<T, P>(elems: seq<T>, priors: seq<P>, i: nat)
    requires i < |elems| == |priors|
    ensures Zip(elems[..i + 1], priors[..i + 1]) == Zip(elems[..i], priors[..i]) + [QueueElement(elems[i], priors[i])]
    ensures ZipMap(elems[..i + 1], priors[..i + 1]) == ZipMap(elems[..i], priors[..i])[elems[i] := priors[i]]
  {
    assert elems[..i + 1][..i] == elems[..i] && priors[..i + 1][..i] == priors[..i];
  }

  /** With distinct elements, the map sends each elems[k] to priors[k] and holds nothing else. */
  lemma {:induction false} ZipMapLookup<T, P>(elems: seq<T>, priors: seq<P>)
    requires |elems| == |priors|
    requires forall j, k :: 0 <= j < k < |elems| ==> elems[j] != elems[k]
    ensures forall v | v in ZipMap(elems, priors) :: v in elems
    ensures forall k :: 0 <= k < |elems| ==> elems[k] in ZipMap(elems, priors) && ZipMap(elems, priors)[elems[k]] == priors[k]
    decreases |elems|
  {
    if |elems| > 0 {
      var n := |elems| - 1;
      ZipMapLookup(elems[..n], priors[..n]);
      assert elems == elems[..n] + [elems[n]];
      assert forall k :: 0 <= k < n ==> elems[..n][k] == elems[k] && priors[..n][k] == priors[k];
    }
  }

  /**
   * The bulk constructor's heapify loop, corrected to start at the last slot
   * with a child: the heap after heapify(|h| / 2 - 1), ..., heapify(i).
   */
  function BuildFrom<T, P>(cmp: (P, P) -> int, h: seq<QueueElement<T, P>>, i: nat): (r: seq<QueueElement<T, P>>)
    ensures |r| == |h| && multiset(r) == multiset(h)
    decreases |h| - i
  {
    if i >= |h| / 2 then h else HeapifyDown(cmp, BuildFrom(cmp, h, i + 1), i)
  }

  /** Slots from the middle on are leaves, so any slots are in order from |h| / 2 on. */
  lemma LeavesAreOrdered<T, P>(cmp: (P, P) -> int, h: seq<QueueElement<T, P>>, i: nat)
    requires i >= |h| / 2
    ensures OrderedFrom(cmp, h, i)
  {
    forall k | 0 < k < |h| && i <= Parent(k)
      ensures false
    {
    }
  }

  /** After heapifying every slot from the middle down to i, the slots are in order from i on. */
  lemma {:induction false} BuildFromOrders<T, P(!new)>(cmp: (P, P) -> int, h: seq<QueueElement<T, P>>, i: nat)
    requires IsComparator(cmp)
    ensures OrderedFrom(cmp, BuildFrom(cmp, h, i), i)
    decreases |h| - i
  {
    if i >= |h| / 2 {
      LeavesAreOrdered(cmp, h, i);
    } else {
      var s := BuildFrom(cmp, h, i + 1);
      BuildFromOrders(cmp, h, i + 1);
      assert OrderedExceptDown(cmp, s, i, i);
      HeapifyDownOrders(cmp, s, i, i);
    }
  }

  /** The bulk constructor's build: heapify every slot with a child, last first. */
  function BuildHeap<T, P>(cmp: (P, P) -> int, h: seq<QueueElement<T, P>>): (r: seq<QueueElement<T, P>>)
    ensures |r| == |h| && multiset(r) == multiset(h)
  {
    BuildFrom(cmp, h, 0)
  }

  /** The build yields a heap. */
  lemma BuildHeapOrders<T, P(!new)>(cmp: (P, P) -> int, h: seq<QueueElement<T, P>>)
    requires IsComparator(cmp)
    ensures HeapOrdered(cmp, BuildHeap(cmp, h))
  {
    BuildFromOrders(cmp, h, 0);
  }

  /** Heapify leaves a leaf slot, and so the whole heap, unchanged. */
  lemma HeapifyLeaf<T, P>(cmp: (P, P) -> int, h: seq<QueueElement<T, P>>, i: nat)
    requires i < |h| && 2 * i + 1 >= |h|
    ensures HeapifyDown(cmp, h, i) == h
  {
  }

  /**
   * The build as the bulk constructor writes it: heapify from |h| / 2 down
   * to 0. On no slots, heapify(0) reads slot 0 and the list access fails.
   */
  function BuildAsWritten<T, P>(cmp: (P, P) -> int, h: seq<QueueElement<T, P>>): (r: Result<seq<QueueElement<T, P>>>)
    ensures r.Ok? ==> multiset(r.value) == multiset(h)
  {
    if |h| == 0 then Err(IndexOutOfRange) else Ok(BuildFrom(cmp, HeapifyDown(cmp, h, |h| / 2), 0))
  }

  /** Building a queue from two empty lists fails as written. */
  lemma BuildAsWrittenFailsOnEmpty<T, P>(cmp: (P, P) -> int)
    ensures BuildAsWritten<T, P>(cmp, []) == Err(IndexOutOfRange)
  {
  }

  /** On any non-empty input the written build and the corrected one agree. */
  lemma BuildAsWrittenAgrees<T, P>(cmp: (P, P) -> int, h: seq<QueueElement<T, P>>)
    requires |h| > 0
    ensures BuildAsWritten(cmp, h) == Ok(BuildHeap(cmp, h))
  {
    HeapifyLeaf(cmp, h, |h| / 2);
  }

  /** The slots left once the last slot has been swapped into the root and the old root dropped. */
  function RemoveRoot<T, P>(h: seq<QueueElement<T, P>>): (r: seq<QueueElement<T, P>>)
    requires |h| > 0
    ensures |r| == |h| - 1
    ensures multiset(r) == multiset(h) - multiset{h[0]}
  {
    var s := Swap(h, |h| - 1, 0);
    assert s == s[..|h| - 1] + [h[0]];
    s[..|h| - 1]
  }

  /** Removing the root of a heap leaves a heap except below the new root. */
  lemma RemoveRootOrdered<T, P>(cmp: (P, P) -> int, h: seq<QueueElement<T, P>>)
    requires HeapOrdered(cmp, h) && |h| > 1
    ensures OrderedExceptDown(cmp, RemoveRoot(h), 0, 0)
  {
    var s := RemoveRoot(h);
    forall k | 0 < k < |s| && Parent(k) != 0
      ensures OrderedAt(cmp, s, k)
    {
      assert OrderedAt(cmp, h, k);
      assert s[k] == h[k] && s[Parent(k)] == h[Parent(k)];
    }
  }

  /** The root of a heap ranks at least as high as every slot. */
  lemma {:induction false} RootIsMax<T, P(!new)>(cmp: (P, P) -> int, h: seq<QueueElement<T, P>>, k: nat)
    requires IsComparator(cmp) && HeapOrdered(cmp, h) && k < |h|
    ensures cmp(h[0].prior, h[k].prior) >= 0
    decreases k
  {
    if k == 0 {
      assert cmp(h[0].prior, h[0].prior) == 0;
    } else {
      RootIsMax(cmp, h, Parent(k));
      assert OrderedAt(cmp, h, k);
    }
  }

  /** The element at the root of an indexed heap has a priority no queued element outranks. */
  lemma RootPriorityIsMax<T, P(!new)>(cmp: (P, P) -> int, h: seq<QueueElement<T, P>>, s: map<T, nat>)
    requires IsComparator(cmp) && HeapOrdered(cmp, h) && IndexedBy(h, s) && |h| > 0
    ensures h[0].elem in PriorityMap(h, s)
    ensures forall e :: e in PriorityMap(h, s) ==> cmp(PriorityMap(h, s)[h[0].elem], PriorityMap(h, s)[e]) >= 0
  {
    forall e | e in PriorityMap(h, s)
      ensures cmp(PriorityMap(h, s)[h[0].elem], PriorityMap(h, s)[e]) >= 0
    {
      RootIsMax(cmp, h, s[e]);
    }
  }

  /** The heap after updatePriority gives slot i priority p: sift-up when p ranks strictly higher, heapify otherwise. */
  function Reprioritize<T, P>(cmp: (P, P) -> int, h: seq<QueueElement<T, P>>, i: nat, p: P): (r: seq<QueueElement<T, P>>)
    requires i < |h|
    ensures |r| == |h|
    ensures multiset(r) == multiset(h) - multiset{h[i]} + multiset{QueueElement(h[i].elem, p)}
  {
    var s := h[i := QueueElement(h[i].elem, p)];
    if cmp(p, h[i].prior) > 0 then SiftUp(cmp, s, i) else HeapifyDown(cmp, s, i)
  }

  /** Raising the priority of a slot of a heap leaves a heap except above that slot. */
  lemma RaiseOrderedExceptUp<T, P(!new)>(cmp: (P, P) -> int, h: seq<QueueElement<T, P>>, i: nat, p: P)
    requires IsComparator(cmp) && HeapOrdered(cmp, h) && i < |h|
    requires cmp(p, h[i].prior) > 0
    ensures OrderedExceptUp(cmp, h[i := QueueElement(h[i].elem, p)], i)
  {
    var s := h[i := QueueElement(h[i].elem, p)];
    forall k | 0 < k < |s| && k != i
      ensures OrderedAt(cmp, s, k)
    {
      assert OrderedAt(cmp, h, k);
    }
    forall k | 0 < k < |s| && i > 0 && Parent(k) == i
      ensures cmp(s[Parent(i)].prior, s[k].prior) >= 0
    {
      assert OrderedAt(cmp, h, k) && OrderedAt(cmp, h, i);
    }
  }

  /** Lowering (or keeping) the priority of a slot of a heap leaves a heap except below that slot. */
  lemma LowerOrderedExceptDown<T, P(!new)>(cmp: (P, P) -> int, h: seq<QueueElement<T, P>>, i: nat, p: P)
    requires IsComparator(cmp) && HeapOrdered(cmp, h) && i < |h|
    requires cmp(p, h[i].prior) <= 0
    ensures OrderedExceptDown(cmp, h[i := QueueElement(h[i].elem, p)], 0, i)
  {
    var s := h[i := QueueElement(h[i].elem, p)];
    forall k | 0 < k < |s| && Parent(k) != i
      ensures OrderedAt(cmp, s, k)
    {
      assert OrderedAt(cmp, h, k);
    }
    forall k | 0 < k < |s| && Parent(k) == i && i > 0
      ensures cmp(s[Parent(i)].prior, s[k].prior) >= 0
    {
      assert OrderedAt(cmp, h, k) && OrderedAt(cmp, h, i);
    }
  }

  /** updatePriority's heap restoration yields a heap, whichever branch it takes. */
  lemma ReprioritizeOrders<T, P(!new)>(cmp: (P, P) -> int, h: seq<QueueElement<T, P>>, i: nat, p: P)
    requires IsComparator(cmp) && HeapOrdered(cmp, h) && i < |h|
    ensures HeapOrdered(cmp, Reprioritize(cmp, h, i, p))
  {
    var s := h[i := QueueElement(h[i].elem, p)];
    if cmp(p, h[i].prior) > 0 {
      RaiseOrderedExceptUp(cmp, h, i, p);
      SiftUpOrders(cmp, s, i);
    } else {
      LowerOrderedExceptDown(cmp, h, i, p);
      HeapifyDownOrders(cmp, s, 0, i);
    }
  }

  /** Re-applying a slot's current priority leaves the heap exactly as it was. */
  lemma ReprioritizeSameIsNoOp<T, P(!new)>(cmp: (P, P) -> int, h: seq<QueueElement<T, P>>, i: nat)
    requires IsComparator(cmp) && HeapOrdered(cmp, h) && i < |h|
    ensures Reprioritize(cmp, h, i, h[i].prior) == h
  {
    var l, r := Left(|h|, i), Right(|h|, i);
    assert h[i := QueueElement(h[i].elem, h[i].prior)] == h;
    assert cmp(h[i].prior, h[i].prior) == 0;
    if l != i {
      assert OrderedAt(cmp, h, l);
    }
    if r != i {
      assert OrderedAt(cmp, h, r);
    }
    assert Largest(cmp, h, [i, l]) == i;
    assert [i, l, r][..2] == [i, l];
    assert Largest(cmp, h, [i, l, r]) == i;
  }
}
