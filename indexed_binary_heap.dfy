/**
 * MinIndexedBinaryHeap over its three arrays, method by method as the source writes it:
 * heap (slot -> index), positions (index -> slot) and keys (index -> key).  Each method is
 * proved to do to the abstract state what the matching function of IndexedBinaryHeapSpec
 * does.
 */
module IndexedBinaryHeap {
  import opened Common
  import opened IndexedHeapCore
  import Spec = IndexedBinaryHeapSpec

  class MinIndexedBinaryHeap {
    const d: nat
    const maxSize: int
    var size: nat
    /** slot -> index; -1 stands for the None the list starts with */
    const heap: array<int>
    /** index -> slot, -1 when absent */
    const positions: array<int>
    /** index -> key, None when absent */
    const keys: array<Option<int>>

    ghost function Abs(): IHeap
      reads this, heap, positions, keys
    {
      IHeap(d, size, positions[..], heap[..], keys[..])
    }

    ghost predicate Tables()
      reads this, heap, positions, keys
    {
      heap != positions && d == 2 &&
      heap.Length == Max(0, maxSize) && positions.Length == heap.Length &&
      keys.Length == heap.Length && size <= heap.Length
    }

    ghost predicate Valid()
      reads this, heap, positions, keys
    {
      Tables() && Spec.WellFormed(Abs())
    }

    constructor (maxSize: int)
      ensures Valid() && Abs() == Spec.Init(maxSize) && this.maxSize == maxSize
    {
      d := 2;
      this.maxSize := maxSize;
      size := 0;
      var n := Max(0, maxSize);
      heap := new int[n](_ => -1);
      positions := new int[n](_ => -1);
      keys := new Option<int>[n](_ => None);
      new;
      assert heap[..] == seq(n, _ => -1);
      assert positions[..] == seq(n, _ => -1);
      assert keys[..] == seq(n, _ => None);
    }

    method Add(index: int, key: int) returns (r: Result<()>)
      requires Valid()
      modifies this, heap, positions, keys
      ensures Valid() && (r, Abs()) == Spec.Add(old(Abs()), index, key)
    {
      if index < 0 || index >= maxSize {
        return Err(IndexError);
      }
      if positions[index] != -1 {
        return Err(ValueError);
      }
      ghost var h := Abs();
      PlaceKeepsMaps(h, index, key);
      heap[size] := index;
      keys[index] := Some(key);
      positions[index] := size;
      size := size + 1;
      ghost var h1 := Place(h, index, key);
      assert Abs() == h1;
      MapsFilled(h1, h1.sz, h1.sz);
      Swim(size - 1);
      assert Spec.Add(h, index, key) == (Ok(()), Abs());
      assert Spec.WellFormed(Abs()) by {
        Spec.AddSpec(h, index, key);
      }
      r := Ok(());
    }

    method Remove(index: int) returns (r: Result<()>)
      requires Valid()
      modifies this, heap, positions, keys
      ensures Valid() && (r, Abs()) == Spec.Remove(old(Abs()), index)
    {
      if index < 0 || index >= maxSize || positions[index] == -1 {
        return Err(ValueError);
      }
      ghost var h := Abs();
      assert index in Contents(h);
      var heapIndex := Detach(index);
      ghost var h2 := Abs();
      DetachSpec(h, index);
      MapsFilled(h2, h.sz, size);
      Sink(heapIndex);
      Forget(index);
      r := Ok(());
      assert Spec.Remove(h, index) == (r, Abs());
      assert Spec.WellFormed(Abs()) by {
        Spec.RemoveSpec(h, index);
      }
    }

    method Peek() returns (r: Option<int>)
      requires Valid()
      ensures r == Spec.Peek(Abs())
    {
      if size == 0 {
        return None;
      }
      return Some(heap[0]);
    }

    method GetKey(index: int) returns (r: Result<Option<int>>)
      requires Valid()
      ensures r == Spec.GetKey(Abs(), index)
    {
      if index < 0 || index >= maxSize {
        return Err(IndexError);
      }
      return Ok(keys[index]);
    }

    /** The first steps of remove: the slot of index is exchanged with the last occupied
        slot and the heap shrinks by one; heapIndex is the slot index came from. */
    method Detach(index: nat) returns (heapIndex: nat)
      requires Valid() && index in Contents(Abs())
      modifies this, heap, positions
      ensures Tables() && Abs() == IndexedHeapCore.Detach(old(Abs()), index)
      ensures heapIndex == old(positions[index])
    {
      heapIndex := positions[index];
      Swap(heapIndex, size - 1);
      size := size - 1;
    }

    /** The last steps of remove: the index loses its position and its key. */
    method Forget(index: nat)
      requires Tables() && index < positions.Length
      modifies positions, keys
      ensures Tables() && Abs() == Spec.Forget(old(Abs()), index)
    {
      positions[index] := -1;
      keys[index] := None;
    }

    /** swim: while slot i is strictly smaller than its parent (i - 1) // d, exchange them. */
    method Swim(i: nat)
      requires Tables() && i < heap.Length && Filled(Abs(), i + 1)
      modifies heap, positions
      ensures Tables() && Abs() == IndexedHeapCore.Swim(old(Abs()), i)
    {
      var cur: nat := i;
      while cur > 0
        invariant Tables() && cur <= i && Filled(Abs(), cur + 1)
        invariant IndexedHeapCore.Swim(Abs(), cur) == IndexedHeapCore.Swim(old(Abs()), i)
        decreases cur
      {
        ghost var h := Abs();
        var parent := (cur - 1) / d;
        var less := Less(cur, parent);
        if !less {
          break;
        }
        SwimStep(h, cur);
        SwapKeepsFilled(h, cur + 1, cur, parent);
        Swap(cur, parent);
        cur := parent;
      }
    }

    /** sink: exchange slot i with the strictly smallest of it and its children, until slot
        i is the smallest. */
    method Sink(i: nat)
      requires Tables() && i <= size && Filled(Abs(), size)
      modifies heap, positions
      ensures Tables() && Abs() == SinkFixed(old(Abs()), i)
    {
      var cur := i;
      while true
        invariant Tables() && cur <= size && Filled(Abs(), size)
        invariant SinkFixed(Abs(), cur) == SinkFixed(old(Abs()), i)
        decreases size - cur
      {
        var smallest := Smallest(cur);
        MinChildFixedSpec(Abs(), cur);
        if smallest == cur {
          break;
        }
        SwapKeepsFilled(Abs(), size, cur, smallest);
        Swap(cur, smallest);
        cur := smallest;
      }
    }

    /** The for loop of sink: the first slot strictly smaller than slot i and than every
        earlier child of i, or i itself. */
    method Smallest(i: nat) returns (smallest: nat)
      requires Tables() && i <= size && Filled(Abs(), size)
      ensures smallest == MinChildFixed(Abs(), i)
    {
      smallest := i;
      var from := d * i + 1;
      var hi := Min(size, d * i + d + 1);
      assert from == FirstChild(d, i) && hi == Min(size, FirstChild(d, i) + d);
      ChildAfter(d, i);
      var j := from;
      while j < hi
        invariant from <= j && (j <= hi || j == from)
        invariant smallest == i || from <= smallest < j
        invariant Scan(Abs(), j, hi, smallest) == Scan(Abs(), from, hi, i)
      {
        var less := Less(j, smallest);
        if less {
          smallest := j;
        }
        j := j + 1;
      }
    }

    /** less: keys[heap[i]] < keys[heap[j]], on occupied slots. */
    method Less(i: nat, j: nat) returns (r: bool)
      requires Tables() && Filled(Abs(), Max(i, j) + 1)
      ensures r <==> Val(Abs(), i) < Val(Abs(), j)
    {
      r := keys[heap[i]].value < keys[heap[j]].value;
    }

    /** swap: exchange the indices of slots i and j and re-point both positions. */
    method Swap(i: nat, j: nat)
      requires Tables() && i < heap.Length && j < heap.Length
      requires 0 <= heap[i] < heap.Length && 0 <= heap[j] < heap.Length
      modifies heap, positions
      ensures Tables() && Abs() == IndexedHeapCore.Swap(old(Abs()), i, j)
    {
      heap[i], heap[j] := heap[j], heap[i];
      positions[heap[i]] := i;
      positions[heap[j]] := j;
    }
  }
}
