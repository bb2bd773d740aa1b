/**
 * MinHeap: a binary minimum heap in a growing list, method by method as the source writes
 * it.  It is the d = 2 case of HeapCore, and each method is proved to do to the list what
 * the matching function of HeapCore does for d = 2.
 */
module BinaryHeap {
  import opened Common
  import HeapCore

  /** get_parent_index: (index - 1) // 2, which is -1 for the root. */
  function GetParentIndex(index: nat): (r: int)
    ensures index == 0 ==> r == -1
    ensures index > 0 ==> r == Parent(2, index)
  {
    (index - 1) / 2
  }

  /** get_left_child_index: 2 * index + 1, the odd slot whose parent is index. */
  function GetLeftChildIndex(index: nat): (r: nat)
    ensures r > index && r % 2 == 1 && GetParentIndex(r) == index
  {
    2 * index + 1
  }

  /** get_right_child_index: 2 * index + 2, the even slot after the left child whose
      parent is index. */
  function GetRightChildIndex(index: nat): (r: nat)
    ensures r > 0 && r % 2 == 0 && GetParentIndex(r) == index
    ensures r == GetLeftChildIndex(index) + 1
  {
    2 * index + 2
  }

  /** The two children of a slot are the two slots whose parent it is. */
  lemma ChildrenOfParent(index: nat, s: nat)
    ensures GetParentIndex(GetLeftChildIndex(index)) == index
    ensures GetParentIndex(GetRightChildIndex(index)) == index
    ensures s > 0 ==> (s == GetLeftChildIndex(GetParentIndex(s)) ||
                       s == GetRightChildIndex(GetParentIndex(s)))
  {
  }

  class MinHeap {
    var heap: seq<int>

    constructor ()
      ensures heap == []
    {
      heap := [];
    }

    /** has_parent: the parent index is not negative, which holds exactly when index > 0. */
    predicate HasParent(index: nat)
      ensures HasParent(index) <==> index > 0
    {
      GetParentIndex(index) >= 0
    }

    /** has_left_child: some slot of the heap has index as its parent. */
    predicate HasLeftChild(index: nat)
      reads this
      ensures HasLeftChild(index) <==> exists c :: 0 < c < |heap| && GetParentIndex(c) == index
    {
      assert forall c :: 0 < c < |heap| && GetParentIndex(c) == index ==> GetLeftChildIndex(index) <= c;
      GetLeftChildIndex(index) < |heap|
    }

    /** has_right_child: index has two children in the heap, so it has a left one too. */
    predicate HasRightChild(index: nat)
      reads this
      ensures HasRightChild(index) ==> HasLeftChild(index)
      ensures HasRightChild(index) <==>
                exists c :: 0 < c < |heap| && GetParentIndex(c) == index && c != GetLeftChildIndex(index)
    {
      assert forall c :: 0 < c < |heap| && GetParentIndex(c) == index && c != GetLeftChildIndex(index) ==>
        GetRightChildIndex(index) <= c;
      GetRightChildIndex(index) < |heap|
    }

    /** swap: exchange the elements at index1 and index2. */
    method Swap(index1: nat, index2: nat)
      requires index1 < |heap| && index2 < |heap|
      modifies this
      ensures heap == HeapCore.Swap(old(heap), index1, index2)
    {
      heap := heap[index1 := heap[index2]][index2 := heap[index1]];
    }

    /** insert: append the value and let it rise. */
    method Insert(value: int)
      modifies this
      ensures heap == HeapCore.Insert(old(heap), 2, value)
    {
      heap := heap + [value];
      HeapifyUp();
    }

    /** heapify_up: starting from the last slot, while the parent is strictly greater,
        exchange the two and continue from the parent. */
    method HeapifyUp()
      requires |heap| > 0
      modifies this
      ensures heap == HeapCore.Swim(old(heap), 2, |old(heap)| - 1)
    {
      var index: nat := |heap| - 1;
      while HasParent(index) && heap[GetParentIndex(index)] > heap[index]
        invariant index < |heap| == |old(heap)|
        invariant HeapCore.Swim(heap, 2, index) == HeapCore.Swim(old(heap), 2, |old(heap)| - 1)
        decreases index
      {
        var parent := GetParentIndex(index);
        HeapCore.SwimStep(heap, 2, index);
        HeapCore.SwapSymmetric(heap, parent, index);
        Swap(parent, index);
        index := parent;
      }
    }

    /** extract_min: None when the list is empty (the source prints the IndexError it
        raises); the popped element when it is alone; otherwise the root, once the popped
        last element has taken its place and sunk. */
    method ExtractMin() returns (r: Option<int>)
      modifies this
      ensures (r, heap) == HeapCore.ExtractMin(old(heap), 2)
    {
      if |heap| == 0 {
        return None;
      }
      if |heap| == 1 {
        var last := heap[0];
        heap := [];
        return Some(last);
      }
      var minValue := heap[0];
      var last := heap[|heap| - 1];
      heap := heap[..|heap| - 1];
      heap := heap[0 := last];
      assert heap == HeapCore.LastToRoot(old(heap));
      HeapifyDown(0);
      return Some(minValue);
    }

    /** heapify_down: the left child if it is strictly smaller than index, then the right
        child if it is strictly smaller than that; exchange and recurse while one was. */
    method HeapifyDown(index: nat)
      requires index < |heap|
      modifies this
      ensures heap == HeapCore.SinkFixed(old(heap), 2, index)
      decreases |heap| - index
    {
      var smallest := index;
      var left, right := GetLeftChildIndex(index), GetRightChildIndex(index);
      var hi := Min(|heap|, left + 2);
      assert left == FirstChild(2, index);
      assert HeapCore.MinChildFixed(heap, 2, index) == HeapCore.Scan(heap, left, hi, index);
      if HasLeftChild(index) && heap[left] < heap[smallest] {
        smallest := left;
      }
      assert HeapCore.Scan(heap, Min(left + 1, hi), hi, smallest) ==
             HeapCore.MinChildFixed(heap, 2, index);
      if HasRightChild(index) && heap[right] < heap[smallest] {
        smallest := right;
      }
      assert HeapCore.Scan(heap, hi, hi, smallest) == HeapCore.MinChildFixed(heap, 2, index);
      HeapCore.MinChildFixedSpec(heap, 2, index);
      if smallest != index {
        Swap(index, smallest);
        HeapifyDown(smallest);
      }
    }

    /** peek: the root, None when the list is empty (the source prints the IndexError). */
    method Peek() returns (r: Option<int>)
      ensures r == HeapCore.Peek(heap)
    {
      if |heap| == 0 {
        return None;
      }
      return Some(heap[0]);
    }

    method Size() returns (r: nat)
      ensures r == |heap|
    {
      return |heap|;
    }

    method IsEmpty() returns (r: bool)
      ensures r <==> heap == []
    {
      return |heap| == 0;
    }
  }
}
