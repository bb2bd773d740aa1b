/**
 * DAryMinHeap: a d-ary minimum heap in a growing list, method by method as the source
 * writes it.  Each method is proved to do to the list what the matching function of
 * HeapCore does.
 */
module DAryHeap {
  import opened Common
  import HeapCore

  /** get_parent_index: (index - 1) // d.  With d > 0 Python's floor division and Dafny's
      division agree, also for index 0, whose "parent" is -1. */
  function GetParentIndex(d: nat, index: int): (r: int)
    requires d >= 1
    ensures index >= 1 ==> r == Parent(d, index)
    ensures index == 0 ==> r == -1
  {
    (index - 1) / d
  }

  /** get_child_index: the child_index-th child of parent_index. */
  function GetChildIndex(d: nat, parentIndex: int, childIndex: int): (r: int)
    ensures d >= 1 && parentIndex >= 0 && 0 <= childIndex < d ==>
              r >= 1 && GetParentIndex(d, r) == parentIndex
  {
    var r := d * parentIndex + childIndex + 1;
    assert d >= 1 && parentIndex >= 0 && 0 <= childIndex < d ==> GetParentIndex(d, r) == parentIndex by {
      if d >= 1 && parentIndex >= 0 && 0 <= childIndex < d {
        ChildRange(d, parentIndex, r);
      }
    }
    r
  }

  /** The two index maps are inverse: slot s > 0 has parent p exactly when it is one of
      the d children of p, and it is the ((s - 1) % d)-th child of its parent. */
  lemma ChildParentInverse(d: nat, p: nat, s: nat)
    requires d >= 1 && s >= 1
    ensures GetParentIndex(d, s) == p <==> exists c :: 0 <= c < d && GetChildIndex(d, p, c) == s
    ensures GetChildIndex(d, GetParentIndex(d, s), (s - 1) % d) == s
  {
  }

  class DAryMinHeap {
    const d: nat
    var heap: seq<int>

    ghost predicate Valid() {
      d >= 1
    }

    /** __init__ for d >= 1: an empty list. */
    constructor (d: nat)
      requires d >= 1
      ensures Valid() && this.d == d && heap == []
    {
      this.d := d;
      heap := [];
    }

    /** swap: exchange the elements at index1 and index2. */
    method Swap(index1: nat, index2: nat)
      requires index1 < |heap| && index2 < |heap|
      modifies this
      ensures heap == HeapCore.Swap(old(heap), index1, index2)
    {
      heap := heap[index1 := heap[index2]][index2 := heap[index1]];
    }

    /** insert: append the value and let it rise. */
    method Insert(value: int)
      requires Valid()
      modifies this
      ensures heap == HeapCore.Insert(old(heap), d, value)
    {
      heap := heap + [value];
      HeapifyUp(|heap| - 1);
    }

    /** heapify_up: while the element at index is strictly smaller than its parent, exchange
        them and continue from the parent. */
    method HeapifyUp(index: nat)
      requires Valid() && index < |heap|
      modifies this
      ensures heap == HeapCore.Swim(old(heap), d, index)
    {
      var i: nat := index;
      while i > 0
        invariant i < |heap| == |old(heap)|
        invariant HeapCore.Swim(heap, d, i) == HeapCore.Swim(old(heap), d, index)
        decreases i
      {
        var parentIndex := GetParentIndex(d, i);
        if heap[i] < heap[parentIndex] {
          HeapCore.SwimStep(heap, d, i);
          Swap(i, parentIndex);
          i := parentIndex;
        } else {
          break;
        }
      }
    }

    /** extract_min: None when the list is empty (the source prints the IndexError it
        raises); otherwise the root, once the last element has been popped into its place
        and sunk. */
    method ExtractMin() returns (r: Option<int>)
      requires Valid()
      modifies this
      ensures (r, heap) == HeapCore.ExtractMin(old(heap), d)
    {
      if |heap| == 0 {
        return None;
      }
      var minValue := heap[0];
      var lastValue := heap[|heap| - 1];
      heap := heap[..|heap| - 1];
      if |heap| > 0 {
        heap := heap[0 := lastValue];
        assert heap == HeapCore.LastToRoot(old(heap));
        HeapifyDown(0);
      }
      return Some(minValue);
    }

    /** heapify_down: pick the strictly smallest of index and its children, the first one on
        ties; exchange and recurse while that is a child. */
    method HeapifyDown(index: nat)
      requires Valid() && index < |heap|
      modifies this
      ensures heap == HeapCore.SinkFixed(old(heap), d, index)
      decreases |heap| - index
    {
      var size := |heap|;
      var smallest := index;
      var first := FirstChild(d, index);
      var hi := Min(size, first + d);
      assert GetChildIndex(d, index, 0) == first;
      for i := 0 to d
        invariant smallest == index || first <= smallest < hi
        invariant HeapCore.Scan(heap, Min(first + i, hi), hi, smallest) ==
                  HeapCore.MinChildFixed(heap, d, index)
      {
        var childIndex := GetChildIndex(d, index, i);
        assert childIndex == first + i;
        if childIndex < size && heap[childIndex] < heap[smallest] {
          smallest := childIndex;
        }
      }
      HeapCore.MinChildFixedSpec(heap, d, index);
      if smallest != index {
        Swap(index, smallest);
        HeapifyDown(smallest);
      }
    }

    /** peek: the root, None when the list is empty (the source prints the IndexError). */
    method Peek() returns (r: Option<int>)
      ensures r == HeapCore.Peek(heap)
    {
      if |heap| == 0 {
        return None;
      }
      return Some(heap[0]);
    }

    method GetSize() returns (r: nat)
      ensures r == |heap|
    {
      return |heap|;
    }

    method IsEmpty() returns (r: bool)
      ensures r <==> heap == []
    {
      return |heap| == 0;
    }
  }
}
