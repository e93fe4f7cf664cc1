/** The `min_heap` class of GraphUtils.ts (lines 139-221). Its `heap` array
    grows and shrinks with push and pop, so it is a sequence field that the
    methods reassign; each method is proved to leave exactly the heap that the
    matching function of module Heaps describes. */
module MinHeapClass {
  import opened Heaps
  import opened Options

  /** The first round of `remove_min` sifts down from the root of the array
      left once the last record has replaced the root (or the only record has
      been popped). */
  lemma PopRootStarts(h: seq<Entry>, start: seq<Entry>)
    requires |h| > 0 && start == if |h| == 1 then [] else h[..|h| - 1][0 := h[|h| - 1]]
    ensures PopRoot(h) == SiftDown(start, 0)
  {
  }

  class MinHeap {
    var heap: seq<Entry>

    ghost predicate Valid()
      reads this
    {
      HeapOrdered(heap)
    }

    constructor ()
      ensures Valid() && heap == []
    {
      heap := [];
    }

    /** `add` (lines 147-160): push the record and swap it up while it is
        strictly smaller than its parent. */
    method Add(item: Entry)
      requires Valid()
      modifies this
      ensures Valid()
      ensures heap == Push(old(heap), item)
      ensures multiset(heap) == multiset(old(heap)) + multiset{item}
    {
      PushKeepsOrder(heap, item);
      var h := heap + [item];
      ghost var start := h;
      var currentIndex: nat := |h| - 1;
      while currentIndex > 0
        invariant 0 <= currentIndex < |h|
        invariant SiftUp(h, currentIndex) == SiftUp(start, |start| - 1)
        decreases currentIndex
      {
        var parentIndex := (currentIndex - 1) / 2;
        if h[currentIndex].fScore < h[parentIndex].fScore {
          h := Swap(h, currentIndex, parentIndex);
          currentIndex := parentIndex;
        } else {
          break;
        }
      }
      assert Push(heap, item) == SiftUp(start, |start| - 1);
      heap := h;
    }

    /** One round of the do-while body of `remove_min` (lines 171-191): the last
        record replaces the root (or the only record is popped), then it is
        swapped down while it is strictly larger than its smaller child. */
    method PopRootInPlace()
      requires |heap| > 0
      modifies this
      ensures heap == PopRoot(old(heap))
    {
      var h := heap;
      if |h| == 1 {
        h := [];
      } else {
        h := h[..|h| - 1][0 := h[|h| - 1]];
      }
      ghost var start := h;
      var currentIndex: nat := 0;
      while true
        invariant currentIndex <= |h|
        invariant SiftDown(h, currentIndex) == SiftDown(start, 0)
        decreases |h| - currentIndex
      {
        var leftChildIndex := 2 * currentIndex + 1;
        var rightChildIndex := 2 * currentIndex + 2;
        var smallerChildIndex := leftChildIndex;
        if rightChildIndex < |h| && h[rightChildIndex].fScore < h[leftChildIndex].fScore {
          smallerChildIndex := rightChildIndex;
        }
        assert smallerChildIndex == SmallerChild(h, currentIndex);
        if smallerChildIndex < |h| && h[currentIndex].fScore > h[smallerChildIndex].fScore {
          h := Swap(h, currentIndex, smallerChildIndex);
          currentIndex := smallerChildIndex;
        } else {
          break;
        }
      }
      PopRootStarts(heap, start);
      heap := h;
    }

    /** `remove_min` (lines 163-197). What the result means is stated by
        Heaps.RemoveMinOutcome. */
    method RemoveMin() returns (r: PopResult)
      requires Valid()
      modifies this
      ensures Valid()
      ensures Removal(r, heap) == Heaps.RemoveMin(old(heap))
    {
      if |heap| == 0 {
        return Undefined;
      }
      ghost var h0 := heap;
      var min := heap[0];
      PopRootInPlace();
      while min.vertex < 0
        invariant min.vertex >= 0 ==> Drain(h0) == Removal(Popped(min), heap)
        invariant min.vertex < 0 ==> Drain(h0) == if heap == [] then Removal(TypeError, []) else Drain(heap)
        decreases |heap|
      {
        if heap == [] {
          // The next round reads heap[0] of an empty array, writes that
          // undefined value back into slot 0 (line 174) and dereferences it in
          // the loop condition (line 192).
          r := TypeError;
          return;
        }
        min := heap[0];
        PopRootInPlace();
      }
      // The loop only ends on a live record, so the check of line 194 never fires.
      assert min.vertex >= 0;
      r := Popped(min);
      DrainKeepsOrder(h0);
    }

    /** `has` (lines 200-205): a linear scan for a record with this vertex. */
    method Has(index: int) returns (found: bool)
      ensures found <==> exists i :: 0 <= i < |heap| && heap[i].vertex == index
    {
      for i := 0 to |heap|
        invariant forall j :: 0 <= j < i ==> heap[j].vertex != index
      {
        if heap[i].vertex == index {
          return true;
        }
      }
      return false;
    }

    /** `update` (lines 209-218): the first record for the vertex becomes a
        tombstone and a fresh record is added; `thrown` is the "No such node in
        the heap." throw. */
    method Update(index: int, value: int) returns (thrown: bool)
      requires Valid()
      modifies this
      ensures Valid()
      ensures thrown <==> forall j :: 0 <= j < |old(heap)| ==> old(heap)[j].vertex != index
      ensures thrown ==> heap == old(heap)
      ensures !thrown ==> Heaps.Update(old(heap), index, value) == Some(heap)
    {
      for i := 0 to |heap|
        invariant heap == old(heap)
        invariant forall j :: 0 <= j < i ==> heap[j].vertex != index
      {
        if heap[i].vertex == index {
          assert i == FirstIndex(heap, index);
          TombstoneKeepsOrder(heap, i);
          heap := heap[i := Entry(-1, heap[i].fScore)];
          Add(Entry(index, value));
          return false;
        }
      }
      return true;
    }

    /** The `length` getter (line 220): tombstones are counted too, so it is
        zero only when the array is empty. */
    function Length(): (n: nat)
      reads this
      ensures n == 0 <==> heap == []
    {
      |heap|
    }
  }
}
