/**
 * The binary min-heap priority queue. Items are `{node, distance}` entries
 * and the order is the comparator `(a, b) => a.distance - b.distance` that
 * the shortest-path engine constructs the queue with. The backing array is
 * the field `heap`, which the methods replace by its updated value.
 */
module Heap {
  import opened Wrappers

  /** A queue item: a node (by position) and its tentative distance. */
  datatype Entry = Entry(node: nat, distance: int)

  /** The comparator: negative when `a` comes first, zero on a tie. */
  function Compare(a: Entry, b: Entry): (r: int)
    ensures r < 0 <==> a.distance < b.distance
    ensures r == 0 <==> a.distance == b.distance
    ensures r > 0 <==> b.distance < a.distance
  {
    a.distance - b.distance
  }

  /** Element `i` compares no smaller than its parent at `(i - 1) / 2`. */
  ghost predicate ParentOrdered(h: seq<Entry>, i: int)
    requires 0 < i < |h|
  {
    h[(i - 1) / 2].distance <= h[i].distance
  }

  /** The min-heap property at every position. */
  ghost predicate IsMinHeap(h: seq<Entry>) {
    forall i :: 0 < i < |h| ==> ParentOrdered(h, i)
  }

  /** The children of position `k` are `2k + 1` and `2k + 2`. */
  lemma ChildOf(k: nat, c: nat)
    requires 0 < c && (c - 1) / 2 == k
    ensures c == 2 * k + 1 || c == 2 * k + 2
  {
  }

  /** Swapping position `k`, which is smaller than its parent `p`, with that
      parent moves the one possible violation of the heap property up to `p`. */
  lemma SwapUp(h: seq<Entry>, k: nat)
    requires 0 < k < |h| && h[k].distance < h[(k - 1) / 2].distance
    requires forall i :: 0 < i < |h| && i != k ==> ParentOrdered(h, i)
    requires forall c :: 0 < c < |h| && (c - 1) / 2 == k ==> h[(k - 1) / 2].distance <= h[c].distance
    ensures var p := (k - 1) / 2; var h' := h[k := h[p]][p := h[k]];
      (forall i :: 0 < i < |h'| && i != p ==> ParentOrdered(h', i)) &&
      (p > 0 ==> forall c :: 0 < c < |h'| && (c - 1) / 2 == p ==> h'[(p - 1) / 2].distance <= h'[c].distance)
  {
    var p := (k - 1) / 2;
    var h' := h[k := h[p]][p := h[k]];
    forall i | 0 < i < |h'| && i != p
      ensures ParentOrdered(h', i)
    {
      if i != k && (i - 1) / 2 != k && (i - 1) / 2 != p {
        assert ParentOrdered(h, i);
      } else if (i - 1) / 2 == p && i != k {
        assert ParentOrdered(h, i);
      }
    }
    if p > 0 {
      assert ParentOrdered(h, p);
      forall c | 0 < c < |h'| && (c - 1) / 2 == p
        ensures h'[(p - 1) / 2].distance <= h'[c].distance
      {
        if c != k {
          assert ParentOrdered(h, c);
        }
      }
    }
  }

  /** Swapping two positions keeps the same items. */
  lemma SwapKeepsItems(h: seq<Entry>, i: nat, j: nat)
    requires i < |h| && j < |h|
    ensures multiset(h[i := h[j]][j := h[i]]) == multiset(h)
  {
  }

  /** Swapping position `k` with its smallest child `s`, which is smaller than
      it, moves the one possible violation of the heap property down to `s`. */
  lemma SwapDown(h: seq<Entry>, k: nat, s: nat)
    requires s < |h| && (s == 2 * k + 1 || s == 2 * k + 2)
    requires h[s].distance < h[k].distance
    requires 2 * k + 1 < |h| ==> h[s].distance <= h[2 * k + 1].distance
    requires 2 * k + 2 < |h| ==> h[s].distance <= h[2 * k + 2].distance
    requires forall i :: 0 < i < |h| && (i - 1) / 2 != k ==> ParentOrdered(h, i)
    requires k > 0 ==> forall c :: 0 < c < |h| && (c - 1) / 2 == k ==> h[(k - 1) / 2].distance <= h[c].distance
    ensures var h' := h[k := h[s]][s := h[k]];
      forall i :: 0 < i < |h'| && (i - 1) / 2 != s ==> ParentOrdered(h', i)
  {
    var h' := h[k := h[s]][s := h[k]];
    forall i | 0 < i < |h'| && (i - 1) / 2 != s
      ensures ParentOrdered(h', i)
    {
      if (i - 1) / 2 == k {
        ChildOf(k, i);
      } else if i != k && i != s {
        assert ParentOrdered(h, i);
      }
    }
  }

  /** After that swap, the parent of `s` is no larger than the children of `s`. */
  lemma SwapDownBridge(h: seq<Entry>, k: nat, s: nat)
    requires s < |h| && (s == 2 * k + 1 || s == 2 * k + 2)
    requires forall i :: 0 < i < |h| && (i - 1) / 2 != k ==> ParentOrdered(h, i)
    ensures var h' := h[k := h[s]][s := h[k]];
      forall c :: 0 < c < |h'| && (c - 1) / 2 == s ==> h'[(s - 1) / 2].distance <= h'[c].distance
  {
    var h' := h[k := h[s]][s := h[k]];
    forall c | 0 < c < |h'| && (c - 1) / 2 == s
      ensures h'[(s - 1) / 2].distance <= h'[c].distance
    {
      assert ParentOrdered(h, c);
    }
  }

  /** Moving the last item into the root of a min-heap with at least two
      items and dropping the old root removes exactly the old root, and
      leaves the heap property intact below the root's children. */
  lemma RemoveRoot(h: seq<Entry>)
    requires IsMinHeap(h) && |h| >= 2
    ensures var h' := h[..|h| - 1][0 := h[|h| - 1]];
      multiset(h') == multiset(h) - multiset{h[0]} &&
      forall i :: 2 < i < |h'| ==> ParentOrdered(h', i)
  {
    var n := |h|;
    var h' := h[..n - 1][0 := h[n - 1]];
    assert h' == [h[n - 1]] + h[1..n - 1];
    RemoveRootItems(h);
    forall i | 2 < i < |h'|
      ensures ParentOrdered(h', i)
    {
      assert ParentOrdered(h, i);
    }
  }

  /** Replacing the root by the last item and dropping the last position
      removes exactly the root from the items. */
  lemma RemoveRootItems(h: seq<Entry>)
    requires |h| >= 2
    ensures multiset([h[|h| - 1]] + h[1..|h| - 1]) == multiset(h) - multiset{h[0]}
  {
    var n := |h|;
    assert h == [h[0]] + h[1..n - 1] + [h[n - 1]];
  }

  /** The root of a non-empty min-heap is no larger than any of its items. */
  lemma RootBelowAll(h: seq<Entry>)
    requires IsMinHeap(h) && h != []
    ensures forall e :: e in multiset(h) ==> h[0].distance <= e.distance
  {
    forall e | e in multiset(h)
      ensures h[0].distance <= e.distance
    {
      var i :| 0 <= i < |h| && h[i] == e;
      RootIsMinimal(h, i);
    }
  }

  /** A position whose children are no smaller than it is the last place the
      heap property could fail, so the heap property holds everywhere. */
  lemma ChildrenNoSmaller(h: seq<Entry>, k: nat)
    requires forall i :: 0 < i < |h| && (i - 1) / 2 != k ==> ParentOrdered(h, i)
    requires 2 * k + 1 < |h| ==> h[k].distance <= h[2 * k + 1].distance
    requires 2 * k + 2 < |h| ==> h[k].distance <= h[2 * k + 2].distance
    ensures IsMinHeap(h)
  {
    forall i | 0 < i < |h|
      ensures ParentOrdered(h, i)
    {
      if (i - 1) / 2 == k {
        ChildOf(k, i);
      }
    }
  }

  /** The root of a min-heap compares no greater than any element. */
  lemma {:induction false} RootIsMinimal(h: seq<Entry>, i: nat)
    requires IsMinHeap(h)
    requires i < |h|
    ensures h[0].distance <= h[i].distance
    decreases i
  {
    if i > 0 {
      assert ParentOrdered(h, i);
      RootIsMinimal(h, (i - 1) / 2);
    }
  }

  class PriorityQueue {
    var heap: seq<Entry>

    ghost predicate Valid()
      reads this
    {
      IsMinHeap(heap)
    }

    /** The items currently queued, ignoring their order. */
    ghost function Contents(): multiset<Entry>
      reads this
    {
      multiset(heap)
    }

    constructor ()
      ensures Valid() && heap == []
    {
      heap := [];
    }

    /** Appends `item` and sifts it up. */
    method Enqueue(item: Entry)
      requires Valid()
      modifies this
      ensures Valid()
      ensures Contents() == old(Contents()) + multiset{item}
      ensures |heap| == old(|heap|) + 1
    {
      ghost var before := heap;
      heap := heap + [item];
      forall i | 0 < i < |heap| - 1
        ensures ParentOrdered(heap, i)
      {
        assert ParentOrdered(before, i);
      }
      SiftUp();
    }

    /** Removes and returns the root: an item that compares no greater than
        any item left behind. An empty queue yields nothing and stays empty. */
    method Dequeue() returns (first: Option<Entry>)
      requires Valid()
      modifies this
      ensures Valid()
      ensures old(heap) == [] ==> first.None? && heap == old(heap)
      ensures old(heap) != [] ==> first == Some(old(heap[0])) && |heap| == old(|heap|) - 1
      ensures first.Some? ==> first.value in old(Contents()) && Contents() == old(Contents()) - multiset{first.value}
      ensures first.Some? ==> forall e :: e in old(Contents()) ==> first.value.distance <= e.distance
    {
      if heap == [] {
        return None;
      }
      first := Some(heap[0]);
      ghost var before := heap;
      RootBelowAll(before);
      var last := heap[|heap| - 1];
      heap := heap[..|heap| - 1];
      if |heap| > 0 {
        RemoveRoot(before);
        heap := heap[0 := last];
        SiftDown();
      } else {
        assert before == [first.value];
      }
    }

    /** Whether no item is queued. */
    function IsEmpty(): (b: bool)
      reads this
      ensures b <==> Contents() == multiset{}
    {
      |heap| == 0
    }

    /** Moves the last element up while it compares less than its parent. */
    method SiftUp()
      requires heap != []
      requires forall i :: 0 < i < |heap| - 1 ==> ParentOrdered(heap, i)
      modifies this
      ensures Valid()
      ensures multiset(heap) == old(multiset(heap)) && |heap| == old(|heap|)
    {
      var nodeIndex := |heap| - 1;
      while nodeIndex > 0
        invariant 0 <= nodeIndex < |heap| && |heap| == old(|heap|)
        invariant multiset(heap) == old(multiset(heap))
        invariant forall i :: 0 < i < |heap| && i != nodeIndex ==> ParentOrdered(heap, i)
        invariant nodeIndex > 0 ==> forall c :: 0 < c < |heap| && (c - 1) / 2 == nodeIndex ==>
          heap[(nodeIndex - 1) / 2].distance <= heap[c].distance
      {
        var parentIndex := (nodeIndex - 1) / 2;
        if Compare(heap[nodeIndex], heap[parentIndex]) >= 0 {
          assert ParentOrdered(heap, nodeIndex);
          break;
        }
        SwapUp(heap, nodeIndex);
        SwapKeepsItems(heap, nodeIndex, parentIndex);
        heap := heap[nodeIndex := heap[parentIndex]][parentIndex := heap[nodeIndex]];
        nodeIndex := parentIndex;
      }
    }

    /** The child of `nodeIndex` to swap with during sift-down: the smaller
        child, provided it compares less than `element`. */
    method SmallerChild(nodeIndex: nat, element: Entry) returns (swapIndex: Option<nat>)
      ensures swapIndex.None? ==>
        (2 * nodeIndex + 1 < |heap| ==> element.distance <= heap[2 * nodeIndex + 1].distance) &&
        (2 * nodeIndex + 2 < |heap| ==> element.distance <= heap[2 * nodeIndex + 2].distance)
      ensures swapIndex.Some? ==>
        var s := swapIndex.value;
        s < |heap| && (s == 2 * nodeIndex + 1 || s == 2 * nodeIndex + 2) &&
        heap[s].distance < element.distance &&
        (2 * nodeIndex + 1 < |heap| ==> heap[s].distance <= heap[2 * nodeIndex + 1].distance) &&
        (2 * nodeIndex + 2 < |heap| ==> heap[s].distance <= heap[2 * nodeIndex + 2].distance)
    {
      var length := |heap|;
      var leftChildIndex := 2 * nodeIndex + 1;
      var rightChildIndex := 2 * nodeIndex + 2;
      swapIndex := None;
      if leftChildIndex < length {
        if Compare(heap[leftChildIndex], element) < 0 {
          swapIndex := Some(leftChildIndex);
        }
      }
      if rightChildIndex < length {
        if Compare(heap[rightChildIndex], if swapIndex.None? then element else heap[leftChildIndex]) < 0 {
          swapIndex := Some(rightChildIndex);
        }
      }
    }

    /** Moves the root down, swapping it with its smaller child while that
        child compares less than it. */
    method SiftDown()
      requires heap != []
      requires forall i :: 2 < i < |heap| ==> ParentOrdered(heap, i)
      modifies this
      ensures Valid()
      ensures multiset(heap) == old(multiset(heap)) && |heap| == old(|heap|)
    {
      var nodeIndex := 0;
      var length := |heap|;
      var element := heap[nodeIndex];
      while true
        invariant 0 <= nodeIndex < length == |heap|
        invariant heap[nodeIndex] == element
        invariant multiset(heap) == old(multiset(heap))
        invariant forall i :: 0 < i < |heap| && (i - 1) / 2 != nodeIndex ==> ParentOrdered(heap, i)
        invariant nodeIndex > 0 ==> forall c :: 0 < c < |heap| && (c - 1) / 2 == nodeIndex ==>
          heap[(nodeIndex - 1) / 2].distance <= heap[c].distance
        decreases length - nodeIndex
      {
        var swapIndex := SmallerChild(nodeIndex, element);
        if swapIndex.None? {
          ChildrenNoSmaller(heap, nodeIndex);
          break;
        }
        var s := swapIndex.value;
        SwapDown(heap, nodeIndex, s);
        SwapDownBridge(heap, nodeIndex, s);
        SwapKeepsItems(heap, nodeIndex, s);
        heap := heap[nodeIndex := heap[s]][s := heap[nodeIndex]];
        nodeIndex := s;
      }
    }
  }
}
