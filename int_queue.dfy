/**
 * IntQueue: a bounded FIFO queue of integers in a circular array of max_size + 1 slots.
 * One slot always stays free so that front == end means empty; the live elements run from
 * front up to (not including) end, wrapping around the array.
 */
module IntQueue {
  import opened Common

  /** The slot k places after front in a ring of n slots. */
  function Slot(front: nat, k: nat, n: nat): (r: nat)
    requires front < n && k < n
    ensures r < n
  {
    if front + k < n then front + k else front + k - n
  }

  /** Advancing an index by one around the ring, the way the source writes it. */
  lemma NextSlot(i: nat, n: nat)
    requires i < n
    ensures (i + 1) % n == if i + 1 == n then 0 else i + 1
  {
  }

  /** size(): the distance from front to end around the ring. */
  function RingSize(front: nat, end: nat, n: nat): (r: nat)
    requires front < n && end < n
    ensures r < n && Slot(front, r, n) == end
  {
    if front > end then end + n - front else end - front
  }

  class IntQueue {
    const maxSize: nat
    /** the ring: max_size + 1 slots */
    const ar: array<int>
    var front: nat
    var end: nat
    /** the queued values, oldest first */
    ghost var contents: seq<int>

    ghost predicate Valid()
      reads this, ar
    {
      ar.Length == maxSize + 1 && front < ar.Length && end < ar.Length &&
      |contents| <= maxSize && end == Slot(front, |contents|, ar.Length) &&
      forall k :: 0 <= k < |contents| ==> contents[k] == ar[Slot(front, k, ar.Length)]
    }

    /** __init__ for max_size >= 0: an empty ring of max_size + 1 zeros. */
    constructor (maxSize: nat)
      ensures Valid() && fresh(ar) && this.maxSize == maxSize && contents == []
    {
      this.maxSize := maxSize;
      ar := new int[maxSize + 1](_ => 0);
      front, end := 0, 0;
      contents := [];
    }

    /** is_empty: front and end meet exactly when nothing is queued. */
    method IsEmpty() returns (r: bool)
      requires Valid()
      ensures r <==> contents == []
    {
      r := front == end;
    }

    /** size: the number of queued values, never more than max_size. */
    method Size() returns (r: nat)
      requires Valid()
      ensures r == |contents| && r <= maxSize
    {
      r := if front > end then end + ar.Length - front else end - front;
      assert r == RingSize(front, end, ar.Length);
    }

    /** peek: the oldest value; IndexError when the queue is empty. */
    method Peek() returns (r: Result<int>)
      requires Valid()
      ensures r.Err? <==> contents == []
      ensures r.Err? ==> r.error == IndexError
      ensures r.Ok? ==> r.value == contents[0]
    {
      if front == end {
        return Err(IndexError);
      }
      assert Slot(front, 0, ar.Length) == front;
      return Ok(ar[front]);
    }

    /** enqueue: OverflowError when the next end would meet front, which is exactly when
        max_size values are queued; otherwise the value joins at the back. */
    method Enqueue(value: int) returns (r: Result<()>)
      requires Valid()
      modifies this, ar
      ensures Valid()
      ensures r.Err? <==> |old(contents)| == maxSize
      ensures r.Err? ==> r.error == OverflowError && contents == old(contents)
      ensures r.Ok? ==> contents == old(contents) + [value]
    {
      NextSlot(end, ar.Length);
      if (end + 1) % ar.Length == front {
        return Err(OverflowError);
      }
      ar[end] := value;
      end := (end + 1) % ar.Length;
      contents := contents + [value];
      return Ok(());
    }

    /** dequeue: IndexError when the queue is empty; otherwise the oldest value leaves and
        front advances around the ring. */
    method Dequeue() returns (r: Result<int>)
      requires Valid()
      modifies this
      ensures Valid()
      ensures r.Err? <==> old(contents) == []
      ensures r.Err? ==> r.error == IndexError && contents == old(contents)
      ensures r.Ok? ==> r.value == old(contents)[0] && contents == old(contents)[1..]
    {
      if front == end {
        return Err(IndexError);
      }
      assert Slot(front, 0, ar.Length) == front;
      var value := ar[front];
      NextSlot(front, ar.Length);
      front := (front + 1) % ar.Length;
      contents := contents[1..];
      return Ok(value);
    }
  }

  /** Five values fill a new queue of five, then four leave in order. */
  method FillAndDrain(q: IntQueue) returns (out: seq<Result<int>>)
    requires q.Valid() && q.maxSize == 5 && q.contents == []
    modifies q, q.ar
    ensures q.Valid() && q.contents == [5]
    ensures out == [Ok(1), Ok(2), Ok(3), Ok(4)]
  {
    var e;
    e := q.Enqueue(1);
    e := q.Enqueue(2);
    e := q.Enqueue(3);
    e := q.Enqueue(4);
    e := q.Enqueue(5);
    assert q.contents == [1, 2, 3, 4, 5];
    var x1 := q.Dequeue();
    var x2 := q.Dequeue();
    assert q.contents == [3, 4, 5];
    var x3 := q.Dequeue();
    var x4 := q.Dequeue();
    out := [x1, x2, x3, x4];
  }

  /** With 5 left, three more values wrap around the ring and leave after it. */
  method WrapAround(q: IntQueue) returns (out: seq<Result<int>>)
    requires q.Valid() && q.maxSize == 5 && q.contents == [5]
    modifies q, q.ar
    ensures q.Valid() && q.contents == []
    ensures out == [Ok(5), Ok(1), Ok(2), Ok(3)]
  {
    var e;
    e := q.Enqueue(1);
    e := q.Enqueue(2);
    e := q.Enqueue(3);
    assert q.contents == [5, 1, 2, 3];
    var x1 := q.Dequeue();
    var x2 := q.Dequeue();
    assert q.contents == [2, 3];
    var x3 := q.Dequeue();
    var x4 := q.Dequeue();
    out := [x1, x2, x3, x4];
  }

  /** The example run: five values fill a queue of five; four leave in order; three more
      wrap around the ring and leave after the fifth, first in first out. */
  method IntQueueExample() returns (out: seq<Result<int>>, emptyAfterFour: bool, emptyAtEnd: bool)
    ensures out == [Ok(1), Ok(2), Ok(3), Ok(4), Ok(5), Ok(1), Ok(2), Ok(3)]
    ensures !emptyAfterFour && emptyAtEnd
  {
    var q := new IntQueue(5);
    var first := FillAndDrain(q);
    emptyAfterFour := q.IsEmpty();
    var second := WrapAround(q);
    emptyAtEnd := q.IsEmpty();
    out := first + second;
  }
}
