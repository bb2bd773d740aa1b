/**
 * IntArray: a growable array of integers.  The first len slots of arr are the elements;
 * the remaining slots up to capacity are spare, and arr is replaced by one twice as long
 * when an add finds no spare slot.
 */
module IntArray {
  import opened Common

  /** DEFAULT_CAP: the capacity used when none is given. */
  const DefaultCap: nat := 8

  /** The capacity after growing a full array: 1 from 0, otherwise twice as much. */
  function Grown(capacity: nat): (r: nat)
    ensures r > capacity && (capacity > 0 ==> r == 2 * capacity)
  {
    if capacity == 0 then 1 else capacity * 2
  }

  class IntArray {
    var capacity: nat
    var arr: array<int>
    var len: nat

    ghost predicate Valid()
      reads this
    {
      arr.Length == capacity && len <= capacity
    }

    /** The elements, first to last. */
    ghost function Elements(): seq<int>
      reads this, arr
      requires Valid()
    {
      arr[..len]
    }

    /** __init__ for capacity >= 0 (New models the ValueError): capacity zeros, none used. */
    constructor (capacity: nat)
      ensures Valid() && fresh(arr) && this.capacity == capacity && Elements() == []
      ensures arr[..] == seq(capacity, _ => 0)
    {
      this.capacity := capacity;
      arr := new int[capacity](_ => 0);
      len := 0;
    }

    method Size() returns (r: nat)
      requires Valid()
      ensures r == |Elements()|
    {
      return len;
    }

    method IsEmpty() returns (r: bool)
      requires Valid()
      ensures r <==> Elements() == []
    {
      return len == 0;
    }

    /** get: IndexError outside [0, len); otherwise the element at index. */
    method Get(index: int) returns (r: Result<int>)
      requires Valid()
      ensures r.Err? <==> !(0 <= index < |Elements()|)
      ensures r.Err? ==> r.error == IndexError
      ensures r.Ok? ==> r.value == Elements()[index]
    {
      if index < 0 || index >= len {
        return Err(IndexError);
      }
      return Ok(arr[index]);
    }

    /** set: IndexError outside [0, len), changing nothing; otherwise the element at index
        becomes elem and nothing else changes. */
    method Set(index: int, elem: int) returns (r: Result<()>)
      requires Valid()
      modifies arr
      ensures Valid()
      ensures r.Err? <==> !(0 <= index < len)
      ensures r.Err? ==> r.error == IndexError && arr[..] == old(arr[..])
      ensures r.Ok? ==> arr[..] == old(arr[..])[index := elem]
      ensures r.Ok? ==> Elements() == old(Elements())[index := elem]
    {
      if index < 0 || index >= len {
        return Err(IndexError);
      }
      arr[index] := elem;
      return Ok(());
    }

    /** add: when no slot is spare, a new array of the grown capacity receives the
        elements; then elem goes into slot len. */
    method Add(elem: int)
      requires Valid()
      modifies this, arr
      ensures Valid() && Elements() == old(Elements()) + [elem]
      ensures capacity == if old(len) >= old(capacity) then Grown(old(capacity)) else old(capacity)
      ensures old(len) < old(capacity) ==> arr == old(arr)
      ensures old(len) >= old(capacity) ==> fresh(arr)
    {
      if len >= capacity {
        capacity := Grown(capacity);
        var newArr := new int[capacity](_ => 0);
        for i := 0 to len
          modifies newArr
          invariant newArr[..i] == arr[..i]
        {
          newArr[i] := arr[i];
        }
        arr := newArr;
      }
      arr[len] := elem;
      len := len + 1;
    }

    /** remove_at: IndexError outside [0, len); otherwise the later elements shift one
        slot left, the freed last slot is zeroed and len shrinks by one. */
    method RemoveAt(rmIndex: int) returns (r: Result<()>)
      requires Valid()
      modifies this, arr
      ensures Valid() && arr == old(arr) && capacity == old(capacity)
      ensures r.Err? <==> !(0 <= rmIndex < old(len))
      ensures r.Err? ==> r.error == IndexError && len == old(len) && arr[..] == old(arr[..])
      ensures r.Ok? ==> Elements() == old(Elements()[..rmIndex] + Elements()[rmIndex + 1..])
      ensures r.Ok? ==> len == old(len) - 1 && arr[len] == 0
      ensures r.Ok? ==> arr[old(len)..] == old(arr[len..])
    {
      if rmIndex < 0 || rmIndex >= len {
        return Err(IndexError);
      }
      ghost var a, n := arr[..], len;
      for i := rmIndex to len - 1
        modifies arr
        invariant |a| == arr.Length
        invariant forall k :: 0 <= k < rmIndex ==> arr[k] == a[k]
        invariant forall k :: rmIndex <= k < i ==> arr[k] == a[k + 1]
        invariant forall k :: i <= k < arr.Length ==> arr[k] == a[k]
      {
        arr[i] := arr[i + 1];
      }
      arr[len - 1] := 0;
      len := len - 1;
      assert Elements() == a[..rmIndex] + a[rmIndex + 1..n] by {
        assert forall k :: 0 <= k < len ==> arr[..len][k] == (a[..rmIndex] + a[rmIndex + 1..n])[k];
      }
      assert arr[n..] == a[n..];
      return Ok(());
    }

    /** remove: the first element equal to elem is removed and true returned; false, with
        nothing changed, when no element equals elem. */
    method Remove(elem: int) returns (r: bool)
      requires Valid()
      modifies this, arr
      ensures Valid() && arr == old(arr) && capacity == old(capacity)
      ensures r <==> elem in old(Elements())
      ensures !r ==> len == old(len) && arr[..] == old(arr[..])
      ensures r ==> var i := FirstIndex(old(Elements()), elem);
                    Elements() == old(Elements())[..i] + old(Elements())[i + 1..]
    {
      for i := 0 to len
        invariant elem !in arr[..i]
      {
        if arr[i] == elem {
          assert FirstIndex(arr[..len], elem) == i by {
            FirstIndexAt(arr[..len], elem, i);
          }
          var _ := RemoveAt(i);
          return true;
        }
      }
      assert arr[..len] == arr[..len];
      return false;
    }

    /** reverse: the elements in the opposite order; the spare slots stay. */
    method Reverse()
      requires Valid()
      modifies arr
      ensures Valid() && Elements() == Reversed(old(Elements()))
      ensures arr[len..] == old(arr[len..])
    {
      for i := 0 to len / 2
        invariant forall k :: 0 <= k < i ==>
          arr[k] == old(arr[len - 1 - k]) && arr[len - 1 - k] == old(arr[k])
        invariant forall k :: i <= k < len - i ==> arr[k] == old(arr[k])
        invariant arr[len..] == old(arr[len..])
      {
        arr[i], arr[len - i - 1] := arr[len - i - 1], arr[i];
      }
    }

    /** binary_search: an index holding key, or -1.  On a sorted array -1 means key is
        not there. */
    method BinarySearch(key: int) returns (r: int)
      requires Valid()
      ensures r != -1 ==> 0 <= r < len && arr[r] == key
      ensures r == -1 && Sorted(Elements()) ==> key !in Elements()
    {
      var low, high := 0, len - 1;
      while low <= high
        invariant 0 <= low && high < len && low <= high + 1
        invariant Sorted(arr[..len]) ==> forall k :: 0 <= k < len && (k < low || k > high) ==> arr[k] != key
        decreases high - low
      {
        var mid := (low + high) / 2;
        var midVal := arr[mid];
        if midVal < key {
          low := mid + 1;
        } else if midVal > key {
          high := mid - 1;
        } else {
          return mid;
        }
      }
      return -1;
    }

    /** sort: the elements in non-decreasing order (Python's sorted on the first len
        slots); the spare slots stay. */
    method Sort()
      requires Valid()
      modifies arr
      ensures Valid() && Elements() == SortedCopy(old(Elements()))
      ensures arr[len..] == old(arr[len..])
    {
      var sorted := SortedCopy(arr[..len]);
      for i := 0 to len
        invariant arr[..i] == sorted[..i] && arr[i..] == old(arr[i..])
      {
        arr[i] := sorted[i];
      }
    }
  }

  /** __init__: a negative capacity raises ValueError. */
  method New(capacity: int) returns (r: Result<IntArray>)
    ensures capacity < 0 <==> r.Err?
    ensures r.Err? ==> r.error == ValueError
    ensures r.Ok? ==> (fresh(r.value) && fresh(r.value.arr) && r.value.Valid() &&
                       r.value.capacity == capacity && r.value.Elements() == [])
  {
    if capacity < 0 {
      return Err(ValueError);
    }
    var a := new IntArray(capacity);
    return Ok(a);
  }

  /** from_array: ValueError for None; otherwise a full array holding a copy of the list. */
  method FromArray(source: Option<seq<int>>) returns (r: Result<IntArray>)
    ensures source.None? <==> r.Err?
    ensures r.Err? ==> r.error == ValueError
    ensures r.Ok? ==> (fresh(r.value) && fresh(r.value.arr) && r.value.Valid() &&
                       r.value.capacity == |source.value| && r.value.Elements() == source.value)
  {
    if source.None? {
      return Err(ValueError);
    }
    var a := new IntArray(|source.value|);
    var copy := new int[|source.value|](i requires 0 <= i < |source.value| => source.value[i]);
    a.arr := copy;
    a.len := |source.value|;
    return Ok(a);
  }

  /** 3, 7, 6 and -2 added to an empty array with room for them. */
  method AddExample(ar: IntArray)
    requires ar.Valid() && ar.Elements() == [] && ar.capacity == 50
    modifies ar, ar.arr
    ensures ar.Valid() && ar.Elements() == [3, 7, 6, -2] && ar.arr == old(ar.arr)
  {
    ar.Add(3);
    ar.Add(7);
    ar.Add(6);
    ar.Add(-2);
  }

  /** 3, 7, 6, -2 and -2, 3, 6, 7 hold the same elements, the latter in order. */
  lemma SameElements()
    ensures multiset([3, 7, 6, -2]) == multiset([-2, 3, 6, 7])
    ensures Sorted([-2, 3, 6, 7])
  {
    assert Sorted([-2, 3, 6, 7]);
  }

  /** `for i in range(ar.size()): ar.get(i)`: the elements, first to last. */
  method ReadBack(ar: IntArray) returns (items: seq<int>)
    requires ar.Valid()
    ensures items == ar.Elements()
  {
    items := [];
    var size := ar.Size();
    for i := 0 to size
      invariant items == ar.Elements()[..i]
    {
      var x := ar.Get(i);
      assert ar.Elements()[..i + 1] == ar.Elements()[..i] + [x.value];
      items := items + [x.value];
    }
    assert ar.Elements()[..size] == ar.Elements();
  }

  /** The example run: 3, 7, 6, -2 added to an array of capacity 50 and sorted read back
      as -2, 3, 6, 7. */
  method IntArrayExample() returns (items: seq<int>)
    ensures items == [-2, 3, 6, 7]
  {
    var ar := new IntArray(50);
    AddExample(ar);
    ghost var before := ar.Elements();
    ar.Sort();
    SameElements();
    SortedCopyUnique(before, [-2, 3, 6, 7]);
    items := ReadBack(ar);
  }
}
