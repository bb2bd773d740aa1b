/**
 * DynamicArray: a growable array of arbitrary values, Python's None included.  The first
 * len slots of arr are the elements and the rest up to capacity are spare (None).  add
 * replaces arr by one twice as long when it is full; remove_at replaces it by one exactly
 * one slot shorter than the old length.
 */
module DynamicArray {
  import opened Common

  /** The default capacity. */
  const DefaultCap: nat := 16

  /** The capacity after growing a full array: 1 from 0, otherwise twice as much. */
  function Grown(capacity: nat): (r: nat)
    ensures r > capacity && (capacity > 0 ==> r == 2 * capacity)
  {
    if capacity == 0 then 1 else capacity * 2
  }

  /** A slot holds a value or None. */
  class DynamicArray<T(==)> {
    var capacity: nat
    var arr: array<Option<T>>
    var len: nat

    ghost predicate Valid()
      reads this
    {
      arr.Length == capacity && len <= capacity
    }

    /** The elements, first to last. */
    ghost function Elements(): seq<Option<T>>
      reads this, arr
      requires Valid()
    {
      arr[..len]
    }

    /** __init__ for capacity >= 0 (New models the ValueError): capacity empty slots. */
    constructor (capacity: nat)
      ensures Valid() && fresh(arr) && this.capacity == capacity && Elements() == []
      ensures arr[..] == seq(capacity, _ => None)
    {
      this.capacity := capacity;
      arr := new Option<T>[capacity](_ => None);
      len := 0;
    }

    method Size() returns (r: nat)
      requires Valid()
      ensures r == |Elements()|
    {
      return len;
    }

    method IsEmpty() returns (r: bool)
      requires Valid()
      ensures r <==> Elements() == []
    {
      return len == 0;
    }

    /** get: IndexError outside [0, len); otherwise the element at index. */
    method Get(index: int) returns (r: Result<Option<T>>)
      requires Valid()
      ensures r.Err? <==> !(0 <= index < |Elements()|)
      ensures r.Err? ==> r.error == IndexError
      ensures r.Ok? ==> r.value == Elements()[index]
    {
      if index < 0 || index >= len {
        return Err(IndexError);
      }
      return Ok(arr[index]);
    }

    /** set: IndexError outside [0, len), changing nothing; otherwise the element at index
        becomes elem and nothing else changes. */
    method Set(index: int, elem: Option<T>) returns (r: Result<()>)
      requires Valid()
      modifies arr
      ensures Valid()
      ensures r.Err? <==> !(0 <= index < len)
      ensures r.Err? ==> r.error == IndexError && arr[..] == old(arr[..])
      ensures r.Ok? ==> arr[..] == old(arr[..])[index := elem]
      ensures r.Ok? ==> Elements() == old(Elements())[index := elem]
    {
      if index < 0 || index >= len {
        return Err(IndexError);
      }
      arr[index] := elem;
      return Ok(());
    }

    /** clear: the used slots become None and there are no elements. */
    method Clear()
      requires Valid()
      modifies this, arr
      ensures Valid() && Elements() == [] && arr == old(arr) && capacity == old(capacity)
      ensures arr[..] == seq(old(len), _ => None) + old(arr[len..])
    {
      for i := 0 to len
        modifies arr
        invariant forall k :: 0 <= k < i ==> arr[k] == None
        invariant forall k :: i <= k < arr.Length ==> arr[k] == old(arr[k])
      {
        arr[i] := None;
      }
      ghost var cleared := seq(len, _ => None) + old(arr[len..]);
      assert arr[..] == cleared by {
        assert forall k :: 0 <= k < arr.Length ==> arr[k] == cleared[k];
      }
      len := 0;
    }

    /** add: when the array is full, a new array of the grown capacity receives the
        elements; then elem goes into slot len. */
    method Add(elem: Option<T>)
      requires Valid()
      modifies this, arr
      ensures Valid() && Elements() == old(Elements()) + [elem]
      ensures capacity == if old(len) >= old(capacity) then Grown(old(capacity)) else old(capacity)
      ensures old(len) < old(capacity) ==> arr == old(arr)
      ensures old(len) >= old(capacity) ==> fresh(arr)
    {
      if len >= capacity {
        capacity := Grown(capacity);
        var newArr := new Option<T>[capacity](_ => None);
        for i := 0 to len
          modifies newArr
          invariant newArr[..i] == arr[..i]
        {
          newArr[i] := arr[i];
        }
        arr := newArr;
      }
      arr[len] := elem;
      len := len + 1;
    }

    /** remove_at: IndexError outside [0, len); otherwise the removed element, with the
        others copied in order into a new array of exactly the remaining length. */
    method RemoveAt(rmIndex: int) returns (r: Result<Option<T>>)
      requires Valid()
      modifies this
      ensures Valid()
      ensures r.Err? <==> !(0 <= rmIndex < old(len))
      ensures r.Err? ==> r.error == IndexError && len == old(len) && arr == old(arr) &&
                         capacity == old(capacity)
      ensures r.Ok? ==> r.value == old(Elements())[rmIndex]
      ensures r.Ok? ==> Elements() == old(Elements()[..rmIndex] + Elements()[rmIndex + 1..])
      ensures r.Ok? ==> fresh(arr) && capacity == len == old(len) - 1
    {
      if rmIndex < 0 || rmIndex >= len {
        return Err(IndexError);
      }
      var data := arr[rmIndex];
      var newArr := new Option<T>[len - 1](_ => None);
      for i := 0 to len
        modifies newArr
        invariant forall k :: 0 <= k < rmIndex && k < i ==> newArr[k] == arr[k]
        invariant forall k :: rmIndex <= k && k + 1 < i ==> newArr[k] == arr[k + 1]
      {
        if i != rmIndex {
          newArr[i - (if i > rmIndex then 1 else 0)] := arr[i];
        }
      }
      ghost var rest := arr[..rmIndex] + arr[rmIndex + 1..len];
      assert newArr[..] == rest by {
        assert forall k :: 0 <= k < newArr.Length ==> newArr[k] == rest[k];
      }
      arr := newArr;
      capacity := len - 1;
      len := len - 1;
      return Ok(data);
    }

    /** index_of: the index of the first element equal to obj (None matching None), or
        -1 when there is none. */
    method IndexOf(obj: Option<T>) returns (r: int)
      requires Valid()
      ensures r == FirstIndex(Elements(), obj)
    {
      for i := 0 to len
        invariant obj !in arr[..i]
      {
        if obj.None? {
          if arr[i].None? {
            FirstIndexAt(arr[..len], obj, i);
            return i;
          }
        } else {
          if arr[i] == obj {
            FirstIndexAt(arr[..len], obj, i);
            return i;
          }
        }
      }
      assert arr[..len] == Elements();
      return -1;
    }

    /** contains: whether some element equals obj. */
    method Contains(obj: Option<T>) returns (r: bool)
      requires Valid()
      ensures r <==> obj in Elements()
    {
      var i := IndexOf(obj);
      r := i != -1;
    }

    /** remove: the first element equal to obj is removed and true returned; false, with
        nothing changed, when there is none. */
    method Remove(obj: Option<T>) returns (r: bool)
      requires Valid()
      modifies this
      ensures Valid()
      ensures r <==> obj in old(Elements())
      ensures !r ==> len == old(len) && arr == old(arr) && capacity == old(capacity)
      ensures r ==> var i := FirstIndex(old(Elements()), obj);
                    Elements() == old(Elements())[..i] + old(Elements())[i + 1..]
    {
      var index := IndexOf(obj);
      if index == -1 {
        return false;
      }
      var _ := RemoveAt(index);
      return true;
    }
  }

  /** __init__: a negative capacity raises ValueError. */
  method New<T(==)>(capacity: int) returns (r: Result<DynamicArray<T>>)
    ensures capacity < 0 <==> r.Err?
    ensures r.Err? ==> r.error == ValueError
    ensures r.Ok? ==> (fresh(r.value) && fresh(r.value.arr) && r.value.Valid() &&
                       r.value.capacity == capacity && r.value.Elements() == [])
  {
    if capacity < 0 {
      return Err(ValueError);
    }
    var a := new DynamicArray<T>(capacity);
    return Ok(a);
  }

  /** The example run: 1, 2, 3 added to a default array; after remove_at(1) the elements
      are 1, 3, 2 is no longer there and the size is 2. */
  method DynamicArrayExample() returns (items: seq<Option<int>>, has2: bool, size: nat)
    ensures items == [Some(1), Some(3)] && !has2 && size == 2
  {
    var arr := new DynamicArray<int>(DefaultCap);
    arr.Add(Some(1));
    arr.Add(Some(2));
    arr.Add(Some(3));
    assert arr.Elements() == [Some(1), Some(2), Some(3)];
    var _ := arr.RemoveAt(1);
    var x0 := arr.Get(0);
    var x1 := arr.Get(1);
    items := [x0.value, x1.value];
    has2 := arr.Contains(Some(2));
    size := arr.Size();
  }
}
