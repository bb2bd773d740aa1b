/**
 * The indexed binary minimum heap (MinIndexedBinaryHeap) as a function of its state.  It
 * shares the slot-level operations of IndexedHeapCore with d = 2: its sink is the corrected
 * one (SinkFixed), but its remove sinks the moved slot without swimming it.  RemoveFixed is
 * the remove that also swims, about which the min-heap property is proved.
 */
module IndexedBinaryHeapSpec {
  import opened Common
  import opened IndexedHeapCore

  /** The invariant of a MinIndexedBinaryHeap: d = 2 and the maps agree on the occupied
      slots.  The heap slots past size are never cleared and may hold stale indices. */
  predicate WellFormed(h: IHeap) {
    MapsInverse(h) && h.d == 2
  }

  /** __init__: d = 2 and nothing present.  [None] * max_size is empty when max_size <= 0,
      so the capacity is max(0, max_size).  An empty heap slot (None) is written -1. */
  function Init(maxSize: int): (h: IHeap)
    ensures WellFormed(h) && Ordered(h) && h.sz == 0 && Contents(h) == map[]
    ensures |h.pm| == Max(0, maxSize)
  {
    var n := Max(0, maxSize);
    IHeap(2, 0, seq(n, _ => -1), seq(n, _ => -1), seq(n, _ => None))
  }

  // ---------------------------------------------------------------- queries

  /** peek: the index at the root, or None when the heap is empty. */
  function Peek(h: IHeap): Option<int>
    requires Shaped(h)
  {
    if h.sz == 0 then None else Some(h.im[0])
  }

  /** In an ordered heap peek names a present index of least key, and None only when the
      heap is empty. */
  lemma PeekIsMin(h: IHeap)
    requires WellFormed(h)
    ensures Peek(h).None? <==> Contents(h) == map[]
    ensures Peek(h).Some? ==> Peek(h).value in Contents(h)
    ensures Peek(h).Some? && Ordered(h) ==>
      forall k :: k in Contents(h) ==> Contents(h)[Peek(h).value] <= Contents(h)[k]
  {
    ContentsSize(h);
    if h.sz > 0 {
      assert h.pm[h.im[0]] == 0;
      if Ordered(h) {
        RootHoldsMinKey(h);
      }
    }
  }

  /** get_key: an index outside [0, max_size) raises IndexError; otherwise the key of the
      index, None when the index is absent. */
  function GetKey(h: IHeap, index: int): (r: Result<Option<int>>)
    requires Shaped(h)
    ensures r.Err? <==> !(0 <= index < |h.pm|)
    ensures r.Err? ==> r.error == IndexError
    ensures r.Ok? ==> (r.value.Some? <==> index in Contents(h))
    ensures r.Ok? && r.value.Some? ==> r.value.value == Contents(h)[index]
  {
    if index < 0 || index >= |h.pm| then Err(IndexError) else Ok(h.vals[index])
  }

  // ---------------------------------------------------------------- add

  /** add: an index outside [0, max_size) raises IndexError, a present one ValueError;
      otherwise the index takes slot size with its key and swims up. */
  function Add(h: IHeap, index: int, key: int): (Result<()>, IHeap)
    requires WellFormed(h)
  {
    if index < 0 || index >= |h.pm| then (Err(IndexError), h)
    else if h.pm[index] != -1 then (Err(ValueError), h)
    else
      AbsentKeyLeavesRoom(h, index);
      (Ok(()), Swim(Place(h, index, key), h.sz))
  }

  lemma AddSpec(h: IHeap, index: int, key: int)
    requires WellFormed(h)
    ensures var (r, h') := Add(h, index, key);
      WellFormed(h') &&
      (r == Err(IndexError) <==> !(0 <= index < |h.pm|)) &&
      (r == Err(ValueError) <==> 0 <= index < |h.pm| && index in Contents(h)) &&
      (r.Err? ==> h' == h) &&
      (r.Ok? ==> h'.sz == h.sz + 1 && Contents(h') == Contents(h)[index := key]) &&
      (Ordered(h) ==> Ordered(h'))
  {
    if 0 <= index < |h.pm| && index !in Contents(h) {
      PlaceKeepsMaps(h, index, key);
      var h1 := Place(h, index, key);
      SwimKeepsMaps(h1, h1.sz, h.sz);
      if Ordered(h) {
        PlaceSwimReady(h, index, key);
        SwimRestoresOrder(h1, h1.sz, h.sz);
      }
    }
  }

  // ---------------------------------------------------------------- remove

  /** remove's bookkeeping after the sink: the index loses its position and its key.  The
      heap slot it leaves is not cleared. */
  function Forget(h: IHeap, ki: int): (r: IHeap)
    requires Shaped(h) && 0 <= ki < |h.pm|
    ensures Shaped(r)
  {
    h.(pm := h.pm[ki := -1], vals := h.vals[ki := None])
  }

  /** remove as written: an index outside [0, max_size) or absent raises ValueError;
      otherwise its slot is exchanged with the last one, the heap shrinks by one and the
      slot is sunk, but not swum. */
  function Remove(h: IHeap, index: int): (Result<()>, IHeap)
    requires WellFormed(h)
  {
    if index < 0 || index >= |h.pm| || h.pm[index] == -1 then (Err(ValueError), h)
    else
      assert index in Contents(h);
      var i := h.pm[index];
      (Ok(()), Forget(SinkFixed(Detach(h, index), i), index))
  }

  /** Forgetting the index that sits in the slot just past the occupied ones leaves the
      maps inverse without it, and changes no occupied slot's key. */
  lemma ForgetKeepsMaps(h: IHeap, ki: int)
    requires MapsInverseUpTo(h, h.sz + 1) && 0 <= ki < |h.pm| && h.im[h.sz] == ki
    ensures MapsInverse(Forget(h, ki))
    ensures Contents(Forget(h, ki)) == Contents(h) - {ki}
    ensures forall s :: 0 <= s < h.sz ==> Val(Forget(h, ki), s) == Val(h, s)
  {
    var r := Forget(h, ki);
    forall k | 0 <= k < |r.pm| && r.pm[k] != -1
      ensures 0 <= r.pm[k] < r.sz && r.im[r.pm[k]] == k
    {
      assert h.pm[k] != h.sz;
    }
    forall s | 0 <= s < h.sz
      ensures Val(r, s) == Val(h, s)
    {
      assert h.pm[h.im[s]] == s;
    }
  }

  lemma ForgetKeepsOrder(h: IHeap, ki: int)
    requires MapsInverseUpTo(h, h.sz + 1) && 0 <= ki < |h.pm| && h.im[h.sz] == ki && Ordered(h)
    ensures Ordered(Forget(h, ki))
  {
    ForgetKeepsMaps(h, ki);
    forall s | 0 < s < h.sz
      ensures Val(Forget(h, ki), Parent(h.d, s)) <= Val(Forget(h, ki), s)
    {
    }
  }

  /** remove takes exactly the index out of the heap, and keeps the maps inverse. */
  lemma RemoveSpec(h: IHeap, index: int)
    requires WellFormed(h)
    ensures var (r, h') := Remove(h, index);
      WellFormed(h') &&
      (r.Err? <==> !(0 <= index < |h.pm|) || index !in Contents(h)) &&
      (r.Err? ==> r.error == ValueError && h' == h) &&
      (r.Ok? ==> h'.sz == h.sz - 1 && Contents(h') == Contents(h) - {index})
  {
    if 0 <= index < |h.pm| && index in Contents(h) {
      var i := h.pm[index];
      DetachSpec(h, index);
      var h2 := Detach(h, index);
      SinkFixedKeepsMaps(h2, h.sz, i);
      ForgetKeepsMaps(SinkFixed(h2, i), index);
    }
  }

  /** remove with the swim that the moved slot needs (see the findings). */
  function RemoveFixed(h: IHeap, index: int): (Result<()>, IHeap)
    requires WellFormed(h)
  {
    if index < 0 || index >= |h.pm| || h.pm[index] == -1 then (Err(ValueError), h)
    else
      assert index in Contents(h);
      (Ok(()), Forget(DetachRestored(h, index), index))
  }

  /** The corrected remove takes exactly the index out, and keeps an ordered heap ordered. */
  lemma RemoveFixedSpec(h: IHeap, index: int)
    requires WellFormed(h)
    ensures var (r, h') := RemoveFixed(h, index);
      WellFormed(h') &&
      (r.Err? <==> !(0 <= index < |h.pm|) || index !in Contents(h)) &&
      (r.Err? ==> r.error == ValueError && h' == h) &&
      (r.Ok? ==> h'.sz == h.sz - 1 && Contents(h') == Contents(h) - {index}) &&
      (Ordered(h) ==> Ordered(h'))
  {
    if 0 <= index < |h.pm| && index in Contents(h) {
      DetachRestoredMaps(h, index);
      var h4 := DetachRestored(h, index);
      ForgetKeepsMaps(h4, index);
      if Ordered(h) {
        DetachRestoredOrder(h, index);
        ForgetKeepsOrder(h4, index);
      }
    }
  }
}
