/**
 * Stack: a last-in first-out stack kept in a growing list whose end is the top, with an
 * iterator that walks it from the top down.
 */
module Stack {
  import opened Common

  class Stack<T> {
    var list: seq<T>
    /** the iterator's cursor _index, None until __iter__ first sets it; the next element
        __next__ yields is list[_index - 1] */
    var index: Option<nat>

    /** __init__: empty, or holding first_elem when one is given; _index is not set. */
    constructor (firstElem: Option<T>)
      ensures list == (if firstElem.Some? then [firstElem.value] else []) && index.None?
    {
      list := [];
      index := None;
      new;
      if firstElem.Some? {
        Push(firstElem.value);
      }
    }

    method Size() returns (r: nat)
      ensures r == |list|
    {
      return |list|;
    }

    method IsEmpty() returns (r: bool)
      ensures r <==> list == []
    {
      return |list| == 0;
    }

    /** push: the element becomes the new top. */
    method Push(elem: T)
      modifies this
      ensures list == old(list) + [elem] && index == old(index)
    {
      list := list + [elem];
    }

    /** pop: IndexError on an empty stack; otherwise the most recently pushed element
        leaves and is returned. */
    method Pop() returns (r: Result<T>)
      modifies this
      ensures r.Err? <==> old(list) == []
      ensures r.Err? ==> r.error == IndexError && list == old(list)
      ensures r.Ok? ==> old(list) == list + [r.value]
      ensures index == old(index)
    {
      if |list| == 0 {
        return Err(IndexError);
      }
      var top := list[|list| - 1];
      list := list[..|list| - 1];
      return Ok(top);
    }

    /** peek: IndexError on an empty stack; otherwise the top element, which stays. */
    method Peek() returns (r: Result<T>)
      ensures r.Err? <==> list == []
      ensures r.Err? ==> r.error == IndexError
      ensures r.Ok? ==> r.value == list[|list| - 1]
    {
      if |list| == 0 {
        return Err(IndexError);
      }
      return Ok(list[|list| - 1]);
    }

    /** __iter__: the cursor starts above the top. */
    method Iter()
      modifies this
      ensures list == old(list) && index == Some(|list|)
    {
      index := Some(|list|);
    }

    /** __next__: AttributeError before any __iter__, since _index is unset; StopIteration
        with nothing changed once the cursor is at 0; otherwise the cursor moves down by one
        and the element below it is returned, or IndexError when a pop since __iter__ has
        left the cursor past the top. */
    method Next() returns (r: Result<T>)
      modifies this
      ensures list == old(list)
      ensures old(index).None? ==> r == Err(AttributeError) && index == old(index)
      ensures old(index) == Some(0) ==> r == Err(StopIteration) && index == old(index)
      ensures old(index).Some? && old(index).value > 0 ==>
                index == Some(old(index).value - 1) &&
                (if index.value < |list| then r == Ok(list[index.value]) else r == Err(IndexError))
    {
      if index.None? {
        return Err(AttributeError);
      }
      if index.value > 0 {
        index := Some(index.value - 1);
        if index.value < |list| {
          return Ok(list[index.value]);
        }
        return Err(IndexError);
      }
      return Err(StopIteration);
    }

    /** `for item in stack`: the elements from the top down to the bottom. */
    method Items() returns (items: seq<T>)
      modifies this
      ensures list == old(list) && items == Reversed(list)
    {
      Iter();
      items := [];
      var next := Next();
      while next.Ok?
        invariant list == old(list) && index.Some? && index.value <= |list|
        invariant next.Ok? ==> index.value < |list| && next.value == list[index.value]
        invariant next.Err? ==> index.value == 0 && next.error == StopIteration
        invariant items == Reversed(list[index.value + (if next.Ok? then 1 else 0)..])
        decreases index.value + (if next.Ok? then 1 else 0)
      {
        assert list[index.value..][1..] == list[index.value + 1..];
        items := items + [next.value];
        next := Next();
      }
    }
  }

  /** The example run: push 1, 2, 3; pop gives 3, peek then 2, size 2, and iteration
      yields 2 then 1. */
  method StackExample() returns (popped: Result<int>, top: Result<int>, size: nat, items: seq<int>)
    ensures popped == Ok(3) && top == Ok(2) && size == 2 && items == [2, 1]
  {
    var stack := new Stack<int>(None);
    stack.Push(1);
    stack.Push(2);
    stack.Push(3);
    assert stack.list == [1, 2, 3];
    popped := stack.Pop();
    assert |stack.list| == 2;
    assert stack.list[0] == 1 && stack.list[1] == 2 && popped.value == 3 by {
      assert [1, 2, 3] == stack.list + [popped.value];
      var l := stack.list + [popped.value];
      assert l[0] == stack.list[0] && l[1] == stack.list[1] && l[2] == popped.value;
    }
    assert stack.list == [1, 2];
    top := stack.Peek();
    size := stack.Size();
    items := stack.Items();
    assert Reversed([1, 2]) == [2, 1];
  }

  /** __next__ before any __iter__ raises AttributeError, and after __iter__ and a pop it
      raises IndexError. */
  method IteratorMisuse() returns (early: Result<int>, late: Result<int>)
    ensures early == Err(AttributeError) && late == Err(IndexError)
  {
    var stack := new Stack<int>(Some(1));
    early := stack.Next();
    stack.Iter();
    var popped := stack.Pop();
    late := stack.Next();
  }
}
