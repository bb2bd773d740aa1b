/**
 * The indexed D-ary minimum heap (MinIndexedDHeap) as a function of its state.  Each public
 * operation maps a state and its arguments to what the call returns (or the exception it
 * raises) together with the new state.  The operations follow the code as written: its sink
 * carries a key down to a leaf whatever the priorities, and its decrease and increase hand
 * priorities to a comparison of heap slots.  The variants with the suffix Fixed are the
 * corrected operations, about which the heap's promises (the min-heap property, the minimum
 * at the root) are proved.
 */
module IndexedDHeapSpec {
  import opened Common
  import opened IndexedHeapCore

  /** The invariant of a MinIndexedDHeap: the maps agree, D >= 2, N >= D + 1, and every
      slot past the occupied ones is marked -1. */
  predicate WellFormed(h: IHeap) {
    MapsInverse(h) && h.d >= 2 && |h.pm| >= h.d + 1 &&
    forall s :: h.sz <= s < |h.im| ==> h.im[s] == -1
  }

  // ---------------------------------------------------------------- construction and queries

  /** __init__: max_size <= 0 raises ValueError; otherwise D = max(2, degree),
      N = max(D + 1, max_size), no key is present and no slot is occupied. */
  function Init(degree: int, maxSize: int): Result<IHeap> {
    if maxSize <= 0 then Err(ValueError)
    else
      var d := Max(2, degree);
      var n := Max(d + 1, maxSize);
      Ok(IHeap(d, 0, seq(n, _ => -1), seq(n, _ => -1), seq(n, _ => None)))
  }

  lemma InitSpec(degree: int, maxSize: int)
    ensures Init(degree, maxSize).Err? <==> maxSize <= 0
    ensures Init(degree, maxSize).Err? ==> Init(degree, maxSize).error == ValueError
    ensures Init(degree, maxSize).Ok? ==>
      var h := Init(degree, maxSize).value;
      WellFormed(h) && Ordered(h) && h.sz == 0 && Contents(h) == map[] &&
      h.d == Max(2, degree) && |h.pm| == Max(h.d + 1, maxSize)
  {
  }

  /** contains: a key index outside [0, N) raises IndexError; otherwise the key is present
      exactly when its position is not -1. */
  function Contains(h: IHeap, ki: int): (r: Result<bool>)
    requires WellFormed(h)
    ensures r.Err? <==> !(0 <= ki < |h.pm|)
    ensures r.Err? ==> r.error == IndexError
    ensures r.Ok? ==> (r.value <==> ki in Contents(h))
  {
    if ki < 0 || ki >= |h.pm| then Err(IndexError) else Ok(h.pm[ki] != -1)
  }

  /** key_exists_or_throw followed by value_not_null_or_throw. */
  function CheckKeyAndValue(h: IHeap, ki: int, value: Option<int>): (r: Result<()>)
    requires WellFormed(h)
    ensures r.Ok? <==> ki in Contents(h) && value.Some?
    ensures r == Err(IndexError) <==> !(0 <= ki < |h.pm|)
  {
    var c := Contains(h, ki);
    if c.Err? then Err(c.error)
    else if !c.value then Err(ValueError)
    else if value.None? then Err(ValueError)
    else Ok(())
  }

  /** value_of: the priority of a present key; an absent one raises ValueError. */
  function ValueOf(h: IHeap, ki: int): (r: Result<int>)
    requires WellFormed(h)
    ensures r.Ok? <==> ki in Contents(h)
    ensures r.Ok? ==> r.value == Contents(h)[ki]
    ensures r.Err? ==> r.error == (if 0 <= ki < |h.pm| then ValueError else IndexError)
  {
    var c := Contains(h, ki);
    if c.Err? then Err(c.error)
    else if !c.value then Err(ValueError)
    else Ok(h.vals[ki].value)
  }

  /** peek_min_key_index: the key at the root; an empty heap raises ValueError. */
  function PeekMinKeyIndex(h: IHeap): Result<int>
    requires Shaped(h)
  {
    if h.sz == 0 then Err(ValueError) else Ok(h.im[0])
  }

  /** peek_min_value: the priority of the key at the root; an empty heap raises ValueError. */
  function PeekMinValue(h: IHeap): Result<int>
    requires WellFormed(h)
  {
    if h.sz == 0 then Err(ValueError) else Ok(h.vals[h.im[0]].value)
  }

  /** In an ordered heap the peeks name a present key of least priority, and its priority. */
  lemma PeekIsMin(h: IHeap)
    requires WellFormed(h)
    ensures PeekMinKeyIndex(h).Err? <==> h.sz == 0
    ensures PeekMinValue(h).Err? <==> h.sz == 0
    ensures h.sz > 0 ==> (PeekMinKeyIndex(h).value in Contents(h) &&
      PeekMinValue(h).value == Contents(h)[PeekMinKeyIndex(h).value])
    ensures h.sz > 0 && Ordered(h) ==>
      forall k :: k in Contents(h) ==> PeekMinValue(h).value <= Contents(h)[k]
  {
    if h.sz > 0 && Ordered(h) {
      RootHoldsMinKey(h);
    }
  }

  // ---------------------------------------------------------------- insert

  /** insert: contains(ki), then a present key or a None priority raises ValueError;
      otherwise ki takes slot sz and swims up. */
  function Insert(h: IHeap, ki: int, value: Option<int>): (Result<()>, IHeap)
    requires WellFormed(h)
  {
    var c := Contains(h, ki);
    if c.Err? then (Err(c.error), h)
    else if c.value then (Err(ValueError), h)
    else if value.None? then (Err(ValueError), h)
    else
      AbsentKeyLeavesRoom(h, ki);
      (Ok(()), Swim(Place(h, ki, value.value), h.sz))
  }

  lemma InsertSpec(h: IHeap, ki: int, value: Option<int>)
    requires WellFormed(h)
    ensures var (r, h') := Insert(h, ki, value);
      WellFormed(h') &&
      (r == Err(IndexError) <==> !(0 <= ki < |h.pm|)) &&
      (r == Err(ValueError) <==> 0 <= ki < |h.pm| && (ki in Contents(h) || value.None?)) &&
      (r.Err? ==> h' == h) &&
      (r.Ok? ==> h'.sz == h.sz + 1 && Contents(h') == Contents(h)[ki := value.value]) &&
      (Ordered(h) ==> Ordered(h'))
  {
    if 0 <= ki < |h.pm| && ki !in Contents(h) && value.Some? {
      PlaceKeepsMaps(h, ki, value.value);
      var h1 := Place(h, ki, value.value);
      var r := Swim(h1, h.sz);
      assert MapsInverse(r) && Contents(r) == Contents(h1) by {
        SwimKeepsMaps(h1, h1.sz, h.sz);
      }
      assert Ordered(h) ==> Ordered(r) by {
        if Ordered(h) {
          PlaceSwimReady(h, ki, value.value);
          SwimRestoresOrder(h1, h1.sz, h.sz);
        }
      }
    }
  }

  // ---------------------------------------------------------------- delete

  /** delete's bookkeeping after the sink and the swim: ki loses its priority and its
      position, and the slot just vacated is marked -1. */
  function Vacate(h: IHeap, ki: int): (r: IHeap)
    requires Shaped(h) && 0 <= ki < |h.pm| && h.sz < |h.im|
    ensures Shaped(r)
  {
    h.(vals := h.vals[ki := None], pm := h.pm[ki := -1], im := h.im[h.sz := -1])
  }

  /** delete: an absent key raises; otherwise ki's slot is exchanged with the last one,
      the heap shrinks by one, the slot is sunk and then swum, and ki's priority is
      returned. */
  function Delete(h: IHeap, ki: int): (Result<int>, IHeap)
    requires WellFormed(h)
  {
    var c := Contains(h, ki);
    if c.Err? then (Err(c.error), h)
    else if !c.value then (Err(ValueError), h)
    else
      var i := h.pm[ki];
      var h2 := Detach(h, ki);
      var h3 := SinkToLeaf(h2, i);
      var h4 := Swim(h3, i);
      (Ok(h4.vals[ki].value), Vacate(h4, ki))
  }

  /** The one case in which delete goes wrong: ki sits in the last slot, whose priority is
      strictly smaller than its parent's.  The final swim then acts on the slot just
      vacated and lifts ki back among the occupied slots.  An ordered heap rules it out. */
  predicate LastKeyRises(h: IHeap, ki: int)
    requires WellFormed(h)
  {
    0 <= ki < |h.pm| && h.sz > 1 && h.pm[ki] == h.sz - 1 &&
    Val(h, h.sz - 1) < Val(h, Parent(h.d, h.sz - 1))
  }

  lemma OrderedKeyNeverRises(h: IHeap, ki: int)
    requires WellFormed(h) && Ordered(h)
    ensures !LastKeyRises(h, ki)
  {
  }

  /** Nor can it occur for the key at the root, ordered heap or not: the root's slot is
      the last one only when it is the sole occupied slot. */
  lemma PollNeverRises(h: IHeap)
    requires WellFormed(h) && h.sz > 0
    ensures h.im[0] in Contents(h) && !LastKeyRises(h, h.im[0])
  {
  }

  /** The sink and the swim of delete keep the maps inverse on [0, old sz); ki stays in
      the vacated slot unless ki came from there. */
  lemma DeleteSteps(h: IHeap, ki: int)
    requires WellFormed(h) && ki in Contents(h)
    ensures var h4 := Swim(SinkToLeaf(Detach(h, ki), h.pm[ki]), h.pm[ki]);
      MapsInverseUpTo(h4, h.sz) && Contents(h4) == Contents(h) && h4.sz == h.sz - 1 &&
      (h.pm[ki] < h.sz - 1 ==> h4.im[h.sz - 1] == ki) &&
      (forall s :: h.sz <= s < |h.im| ==> h4.im[s] == -1)
  {
    DeleteStepsMaps(h, ki);
    DeleteStepsSlots(h, ki);
  }

  lemma DeleteStepsMaps(h: IHeap, ki: int)
    requires WellFormed(h) && ki in Contents(h)
    ensures var h4 := Swim(SinkToLeaf(Detach(h, ki), h.pm[ki]), h.pm[ki]);
      MapsInverseUpTo(h4, h.sz) && Contents(h4) == Contents(h) && h4.sz == h.sz - 1
  {
    var i := h.pm[ki];
    DetachSpec(h, ki);
    var h2 := Detach(h, ki);
    SinkToLeafKeepsMaps(h2, h.sz, i);
    var h3 := SinkToLeaf(h2, i);
    SwimKeepsMaps(h3, h.sz, i);
  }

  lemma DeleteStepsSlots(h: IHeap, ki: int)
    requires WellFormed(h) && ki in Contents(h)
    ensures var h4 := Swim(SinkToLeaf(Detach(h, ki), h.pm[ki]), h.pm[ki]);
      (h.pm[ki] < h.sz - 1 ==> h4.im[h.sz - 1] == ki) &&
      (forall s :: h.sz <= s < |h.im| ==> h4.im[s] == -1)
  {
    var i := h.pm[ki];
    DetachSpec(h, ki);
    var h2 := Detach(h, ki);
    var h3 := SinkToLeaf(h2, i);
    var h4 := Swim(h3, i);
    assert forall s :: h.sz <= s < |h.im| ==> h4.im[s] == h3.im[s] == h2.im[s];
  }

  /** Delete of a present key, unfolded. */
  lemma DeletePresent(h: IHeap, ki: int)
    requires WellFormed(h) && ki in Contents(h)
    ensures var h4 := Swim(SinkToLeaf(Detach(h, ki), h.pm[ki]), h.pm[ki]);
      h4.sz < |h4.im| && h4.vals == h.vals &&
      Delete(h, ki) == (Ok(h.vals[ki].value), Vacate(h4, ki))
  {
  }

  lemma DeleteSpec(h: IHeap, ki: int)
    requires WellFormed(h)
    ensures var (r, h') := Delete(h, ki);
      (r == Err(IndexError) <==> !(0 <= ki < |h.pm|)) &&
      (r == Err(ValueError) <==> 0 <= ki < |h.pm| && ki !in Contents(h)) &&
      (r.Err? ==> h' == h) &&
      (r.Ok? ==> r.value == Contents(h)[ki] && h'.sz == h.sz - 1 &&
                 h'.vals[ki].None? && h'.pm[ki] == -1 && h'.im[h'.sz] == -1) &&
      (r.Ok? && !LastKeyRises(h, ki) ==> WellFormed(h') && Contents(h') == Contents(h) - {ki})
  {
    if 0 <= ki < |h.pm| && ki in Contents(h) {
      DeletePresent(h, ki);
      DeleteSteps(h, ki);
      if !LastKeyRises(h, ki) {
        DeleteKeepsMaps(h, ki);
      }
    }
  }

  /** When ki sits in the last slot and is no smaller than its parent, delete's sink and
      swim leave it there. */
  lemma LastSlotStays(h: IHeap, ki: int)
    requires WellFormed(h) && ki in Contents(h) && h.pm[ki] == h.sz - 1 && !LastKeyRises(h, ki)
    ensures Swim(SinkToLeaf(Detach(h, ki), h.pm[ki]), h.pm[ki]) == Detach(h, ki)
  {
    DetachLastSinkIsNoop(h, ki);
  }

  lemma DeleteKeepsMaps(h: IHeap, ki: int)
    requires WellFormed(h) && ki in Contents(h) && !LastKeyRises(h, ki)
    ensures var h4 := Swim(SinkToLeaf(Detach(h, ki), h.pm[ki]), h.pm[ki]);
      h4.sz < |h4.im| && WellFormed(Vacate(h4, ki)) &&
      Contents(Vacate(h4, ki)) == Contents(h) - {ki}
  {
    DeleteSteps(h, ki);
    var i := h.pm[ki];
    var h4 := Swim(SinkToLeaf(Detach(h, ki), i), i);
    assert h4.im[h.sz - 1] == ki by {
      if i == h.sz - 1 {
        LastSlotStays(h, ki);
      }
    }
    VacateKeepsMaps(h4, ki);
  }

  /** Vacating the slot just past the occupied ones, when it holds ki, leaves the maps
      inverse without ki. */
  lemma VacateKeepsMaps(h: IHeap, ki: int)
    requires MapsInverseUpTo(h, h.sz + 1) && 0 <= ki < |h.pm| && h.im[h.sz] == ki
    requires forall s :: h.sz < s < |h.im| ==> h.im[s] == -1
    ensures h.d >= 2 && |h.pm| >= h.d + 1 ==> WellFormed(Vacate(h, ki))
    ensures MapsInverse(Vacate(h, ki))
    ensures forall s :: h.sz <= s < |h.im| ==> Vacate(h, ki).im[s] == -1
    ensures Contents(Vacate(h, ki)) == Contents(h) - {ki}
    ensures forall s :: 0 <= s < h.sz ==> Val(Vacate(h, ki), s) == Val(h, s)
  {
    VacateMaps(h, ki);
    VacateValues(h, ki);
  }

  lemma VacateMaps(h: IHeap, ki: int)
    requires MapsInverseUpTo(h, h.sz + 1) && 0 <= ki < |h.pm| && h.im[h.sz] == ki
    requires forall s :: h.sz < s < |h.im| ==> h.im[s] == -1
    ensures MapsInverse(Vacate(h, ki))
    ensures forall s :: h.sz <= s < |h.im| ==> Vacate(h, ki).im[s] == -1
  {
    var r := Vacate(h, ki);
    forall k | 0 <= k < |r.pm| && r.pm[k] != -1
      ensures 0 <= r.pm[k] < r.sz && r.im[r.pm[k]] == k
    {
      assert h.pm[k] != h.sz;
    }
  }

  lemma VacateValues(h: IHeap, ki: int)
    requires MapsInverseUpTo(h, h.sz + 1) && 0 <= ki < |h.pm| && h.im[h.sz] == ki
    ensures Contents(Vacate(h, ki)) == Contents(h) - {ki}
    ensures forall s :: 0 <= s < h.sz ==> Val(Vacate(h, ki), s) == Val(h, s)
  {
    var r := Vacate(h, ki);
    forall s | 0 <= s < h.sz
      ensures Val(r, s) == Val(h, s)
    {
      assert h.pm[h.im[s]] == s;
    }
  }

  lemma VacateKeepsOrder(h: IHeap, ki: int)
    requires MapsInverseUpTo(h, h.sz + 1) && 0 <= ki < |h.pm| && h.im[h.sz] == ki && Ordered(h)
    ensures Ordered(Vacate(h, ki))
  {
    var r := Vacate(h, ki);
    forall s | 0 < s < r.sz
      ensures Val(r, Parent(r.d, s)) <= Val(r, s)
    {
      var p := Parent(h.d, s);
      assert h.pm[h.im[s]] == s && h.pm[h.im[p]] == p;
    }
  }

  /** As written: when LastKeyRises holds, the deleted key is left in an occupied slot,
      so the maps no longer agree. */
  lemma DeleteLeavesKeyBehind(h: IHeap, ki: int)
    requires WellFormed(h) && LastKeyRises(h, ki)
    ensures var (r, h') := Delete(h, ki);
      r.Ok? && ki !in Contents(h') && !MapsInverse(h') &&
      exists s :: 0 <= s < h'.sz && h'.im[s] == ki
  {
    var last := h.sz - 1;
    DeleteSteps(h, ki);
    DetachLastSinkIsNoop(h, ki);
    DetachSpec(h, ki);
    var h2 := Detach(h, ki);
    var p := Parent(h.d, last);
    SwapKeepsMaps(h2, h.sz, last, p);
    var h3' := Swap(h2, last, p);
    assert Swim(h2, last) == Swim(h3', p);
    var h4 := Swim(h2, last);
    assert h4.im[last] == h3'.im[last] != ki;
    var s := h4.pm[ki];
    assert 0 <= s < h.sz && h4.im[s] == ki;
    var h' := Vacate(h4, ki);
    assert h'.im[s] == ki;
  }

  // ---------------------------------------------------------------- update, decrease, increase

  /** values[ki] = value for a present key. */
  function Reprioritize(h: IHeap, ki: int, v: int): (r: IHeap)
    requires Shaped(h) && 0 <= ki < |h.pm|
    ensures Shaped(r)
  {
    h.(vals := h.vals[ki := Some(v)])
  }

  /** A new priority for a present key keeps the maps, and changes the priority of its slot
      and of no other. */
  lemma ReprioritizeKeepsMaps(h: IHeap, ki: int, v: int)
    requires WellFormed(h) && ki in Contents(h)
    ensures WellFormed(Reprioritize(h, ki, v))
    ensures Contents(Reprioritize(h, ki, v)) == Contents(h)[ki := v]
  {
  }

  lemma ReprioritizeSpec(h: IHeap, ki: int, v: int)
    requires WellFormed(h) && ki in Contents(h)
    ensures WellFormed(Reprioritize(h, ki, v))
    ensures Contents(Reprioritize(h, ki, v)) == Contents(h)[ki := v]
    ensures forall s :: 0 <= s < h.sz ==>
      Val(Reprioritize(h, ki, v), s) == if s == h.pm[ki] then v else Val(h, s)
  {
    forall s | 0 <= s < h.sz
      ensures Val(Reprioritize(h, ki, v), s) == if s == h.pm[ki] then v else Val(h, s)
    {
      assert h.pm[h.im[s]] == s;
    }
  }

  /** update: an absent key or a None priority raises; otherwise the priority is replaced,
      the key's slot is sunk and then swum, and the old priority is returned. */
  function Update(h: IHeap, ki: int, value: Option<int>): (Result<int>, IHeap)
    requires WellFormed(h)
  {
    var c := CheckKeyAndValue(h, ki, value);
    if c.Err? then (Err(c.error), h)
    else
      var i := h.pm[ki];
      (Ok(h.vals[ki].value), Swim(SinkToLeaf(Reprioritize(h, ki, value.value), i), i))
  }

  lemma UpdateSpec(h: IHeap, ki: int, value: Option<int>)
    requires WellFormed(h)
    ensures var (r, h') := Update(h, ki, value);
      WellFormed(h') &&
      (r.Err? <==> CheckKeyAndValue(h, ki, value).Err?) &&
      (r.Err? ==> r.error == CheckKeyAndValue(h, ki, value).error && h' == h) &&
      (r.Ok? ==> r.value == Contents(h)[ki] && h'.sz == h.sz &&
                 Contents(h') == Contents(h)[ki := value.value])
  {
    if CheckKeyAndValue(h, ki, value).Ok? {
      var i := h.pm[ki];
      var h1 := Reprioritize(h, ki, value.value);
      ReprioritizeSpec(h, ki, value.value);
      ResettleKeepsMaps(h1, i);
    }
  }

  /** Sinking slot i to a leaf and swimming it back keeps a well-formed heap well formed
      with the same contents. */
  lemma ResettleKeepsMaps(h: IHeap, i: nat)
    requires WellFormed(h) && i < h.sz
    ensures var r := Swim(SinkToLeaf(h, i), i);
      WellFormed(r) && Contents(r) == Contents(h) && r.sz == h.sz
  {
    var h3 := SinkToLeaf(h, i);
    SinkToLeafKeepsMaps(h, h.sz, i);
    SwimKeepsMaps(h3, h.sz, i);
  }

  /** less(i, j) as the heap defines it, applied to whatever the caller passes:
      values[im[i]] < values[im[j]] under Python's indexing, so that a negative argument
      counts from the end of the arrays, an empty slot (-1) reads the priority of key N - 1,
      an argument outside [-N, N) raises IndexError and a missing priority raises
      TypeError.  On occupied slots it compares their priorities. */
  function SlotLess(h: IHeap, i: int, j: int): (r: Result<bool>)
    requires Shaped(h)
    ensures MapsInverse(h) && 0 <= i < h.sz && 0 <= j < h.sz ==> r == Ok(Val(h, i) < Val(h, j))
    ensures 0 <= i && 0 <= j && Filled(h, Max(i, j) + 1) ==> r == Ok(Val(h, i) < Val(h, j))
  {
    var a := PyIndex(h.im, i);
    if a.Err? then Err(a.error)
    else
      var va := PyIndex(h.vals, a.value);
      if va.Err? then Err(va.error)
      else
        var b := PyIndex(h.im, j);
        if b.Err? then Err(b.error)
        else
          var vb := PyIndex(h.vals, b.value);
          if vb.Err? then Err(vb.error)
          else if va.value.None? || vb.value.None? then Err(TypeError)
          else Ok(va.value.value < vb.value.value)
  }

  /** decrease as written: the guard is less(value, values[ki]), which reads the two
      priorities as heap slots; when it holds, the priority is replaced and the key's slot
      swims. */
  function Decrease(h: IHeap, ki: int, value: Option<int>): (Result<()>, IHeap)
    requires WellFormed(h)
  {
    var c := CheckKeyAndValue(h, ki, value);
    if c.Err? then (Err(c.error), h)
    else
      var less := SlotLess(h, value.value, h.vals[ki].value);
      if less.Err? then (Err(less.error), h)
      else if !less.value then (Ok(()), h)
      else (Ok(()), Swim(Reprioritize(h, ki, value.value), h.pm[ki]))
  }

  /** increase as written: the guard is less(values[ki], value); when it holds, the
      priority is replaced and the key's slot sinks (to a leaf). */
  function Increase(h: IHeap, ki: int, value: Option<int>): (Result<()>, IHeap)
    requires WellFormed(h)
  {
    var c := CheckKeyAndValue(h, ki, value);
    if c.Err? then (Err(c.error), h)
    else
      var less := SlotLess(h, h.vals[ki].value, value.value);
      if less.Err? then (Err(less.error), h)
      else if !less.value then (Ok(()), h)
      else (Ok(()), SinkToLeaf(Reprioritize(h, ki, value.value), h.pm[ki]))
  }

  lemma DecreaseSpec(h: IHeap, ki: int, value: Option<int>)
    requires WellFormed(h)
    ensures var (r, h') := Decrease(h, ki, value);
      WellFormed(h') &&
      (CheckKeyAndValue(h, ki, value).Err? ==> r == CheckKeyAndValue(h, ki, value) && h' == h) &&
      (r.Err? ==> h' == h) &&
      (CheckKeyAndValue(h, ki, value).Ok? ==>
        var guard := SlotLess(h, value.value, Contents(h)[ki]);
        (r.Err? <==> guard.Err?) &&
        (guard == Ok(false) ==> h' == h) &&
        (guard == Ok(true) ==> Contents(h') == Contents(h)[ki := value.value] &&
                               (Ordered(h) && value.value <= Contents(h)[ki] ==> Ordered(h'))))
  {
    if CheckKeyAndValue(h, ki, value).Ok? && SlotLess(h, value.value, h.vals[ki].value) == Ok(true) {
      LowerThenSwim(h, ki, value.value);
    }
  }

  /** Giving ki a new priority and swimming its slot keeps the heap well formed, replaces
      ki's priority, and keeps an ordered heap ordered when the priority does not grow. */
  lemma LowerThenSwim(h: IHeap, ki: int, v: int)
    requires WellFormed(h) && ki in Contents(h)
    ensures h.pm[ki] < h.sz
    ensures var r := Swim(Reprioritize(h, ki, v), h.pm[ki]);
      WellFormed(r) && Contents(r) == Contents(h)[ki := v] &&
      (Ordered(h) && v <= Contents(h)[ki] ==> Ordered(r))
  {
    var i := h.pm[ki];
    var h1 := Reprioritize(h, ki, v);
    ReprioritizeSpec(h, ki, v);
    var r := Swim(h1, i);
    assert MapsInverse(r) && Contents(r) == Contents(h1) by {
      SwimKeepsMaps(h1, h1.sz, i);
    }
    assert Ordered(h) && v <= Contents(h)[ki] ==> Ordered(r) by {
      if Ordered(h) && v <= Contents(h)[ki] {
        OrderedButFrom(h, h1, i);
        SwimReadyBelow(h1, i, Val(h, i));
        SwimRestoresOrder(h1, h1.sz, i);
      }
    }
  }

  lemma IncreaseSpec(h: IHeap, ki: int, value: Option<int>)
    requires WellFormed(h)
    ensures var (r, h') := Increase(h, ki, value);
      WellFormed(h') &&
      (CheckKeyAndValue(h, ki, value).Err? ==> r == CheckKeyAndValue(h, ki, value) && h' == h) &&
      (r.Err? ==> h' == h) &&
      (CheckKeyAndValue(h, ki, value).Ok? ==>
        var guard := SlotLess(h, Contents(h)[ki], value.value);
        (r.Err? <==> guard.Err?) &&
        (guard == Ok(false) ==> h' == h) &&
        (guard == Ok(true) ==> Contents(h') == Contents(h)[ki := value.value]))
  {
    if CheckKeyAndValue(h, ki, value).Ok? && SlotLess(h, h.vals[ki].value, value.value) == Ok(true) {
      var h1 := Reprioritize(h, ki, value.value);
      ReprioritizeSpec(h, ki, value.value);
      SinkToLeafKeepsMaps(h1, h1.sz, h.pm[ki]);
    }
  }

  // ---------------------------------------------------------------- poll

  /** poll_min_key_index: peek_min_key_index, then delete that key. */
  function PollMinKeyIndex(h: IHeap): (Result<int>, IHeap)
    requires WellFormed(h)
  {
    var k := PeekMinKeyIndex(h);
    if k.Err? then (Err(k.error), h)
    else
      var (r, h') := Delete(h, k.value);
      if r.Err? then (Err(r.error), h') else (Ok(k.value), h')
  }

  /** poll_min_value: peek_min_value, then delete the key at the root. */
  function PollMinValue(h: IHeap): (Result<int>, IHeap)
    requires WellFormed(h)
  {
    var v := PeekMinValue(h);
    if v.Err? then (Err(v.error), h)
    else
      var (r, h') := Delete(h, h.im[0]);
      if r.Err? then (Err(r.error), h') else (Ok(v.value), h')
  }

  /** The polls remove and return the key at the root (and its priority), and the maps
      stay inverse; an empty heap raises ValueError.  On an ordered heap that key is one of
      least priority. */
  lemma PollSpec(h: IHeap)
    requires WellFormed(h)
    ensures var (r, h') := PollMinKeyIndex(h);
      (r.Err? <==> h.sz == 0) && (r.Err? ==> r.error == ValueError && h' == h) &&
      (r.Ok? ==> r.value == h.im[0] && r.value in Contents(h) && WellFormed(h') &&
                 Contents(h') == Contents(h) - {r.value})
    ensures var (r, h') := PollMinValue(h);
      (r.Err? <==> h.sz == 0) && (r.Err? ==> r.error == ValueError && h' == h) &&
      (r.Ok? ==> WellFormed(h') && h' == PollMinKeyIndex(h).1 &&
                 r.value == Contents(h)[PollMinKeyIndex(h).0.value])
    ensures Ordered(h) && h.sz > 0 ==>
      var kr := PollMinKeyIndex(h).0;
      var vr := PollMinValue(h).0;
      kr.Ok? && vr.Ok? &&
      forall k :: k in Contents(h) ==> vr.value == Contents(h)[kr.value] <= Contents(h)[k]
  {
    PeekIsMin(h);
    if h.sz > 0 {
      PollNeverRises(h);
      DeleteSpec(h, h.im[0]);
    }
  }

  // ---------------------------------------------------------------- corrected operations

  /** delete with the corrected sink, and with the swim skipped when ki came from the last
      slot (there is then nothing to restore). */
  function DeleteFixed(h: IHeap, ki: int): (Result<int>, IHeap)
    requires WellFormed(h)
  {
    var c := Contains(h, ki);
    if c.Err? then (Err(c.error), h)
    else if !c.value then (Err(ValueError), h)
    else
      (Ok(h.vals[ki].value), Vacate(DetachRestored(h, ki), ki))
  }

  /** update with the corrected sink. */
  function UpdateFixed(h: IHeap, ki: int, value: Option<int>): (Result<int>, IHeap)
    requires WellFormed(h)
  {
    var c := CheckKeyAndValue(h, ki, value);
    if c.Err? then (Err(c.error), h)
    else
      var i := h.pm[ki];
      (Ok(h.vals[ki].value), Swim(SinkFixed(Reprioritize(h, ki, value.value), i), i))
  }

  /** decrease comparing the priorities themselves. */
  function DecreaseFixed(h: IHeap, ki: int, value: Option<int>): (Result<()>, IHeap)
    requires WellFormed(h)
  {
    var c := CheckKeyAndValue(h, ki, value);
    if c.Err? then (Err(c.error), h)
    else if value.value < h.vals[ki].value then
      (Ok(()), Swim(Reprioritize(h, ki, value.value), h.pm[ki]))
    else (Ok(()), h)
  }

  /** increase comparing the priorities themselves, with the corrected sink. */
  function IncreaseFixed(h: IHeap, ki: int, value: Option<int>): (Result<()>, IHeap)
    requires WellFormed(h)
  {
    var c := CheckKeyAndValue(h, ki, value);
    if c.Err? then (Err(c.error), h)
    else if h.vals[ki].value < value.value then
      (Ok(()), SinkFixed(Reprioritize(h, ki, value.value), h.pm[ki]))
    else (Ok(()), h)
  }

  lemma DeleteFixedPresent(h: IHeap, ki: int)
    requires WellFormed(h) && ki in Contents(h)
    ensures DeleteFixed(h, ki) == (Ok(h.vals[ki].value), Vacate(DetachRestored(h, ki), ki))
  {
  }

  /** The corrected delete removes exactly ki from any well-formed heap, returns its
      priority, and keeps an ordered heap ordered. */
  lemma DeleteFixedSpec(h: IHeap, ki: int)
    requires WellFormed(h)
    ensures var (r, h') := DeleteFixed(h, ki);
      WellFormed(h') &&
      (r == Err(IndexError) <==> !(0 <= ki < |h.pm|)) &&
      (r == Err(ValueError) <==> 0 <= ki < |h.pm| && ki !in Contents(h)) &&
      (r.Err? ==> h' == h) &&
      (r.Ok? ==> r.value == Contents(h)[ki] && h'.sz == h.sz - 1 &&
                 Contents(h') == Contents(h) - {ki}) &&
      (Ordered(h) ==> Ordered(h'))
  {
    if 0 <= ki < |h.pm| && ki in Contents(h) {
      DeleteFixedPresent(h, ki);
      DetachRestoredMaps(h, ki);
      var h4 := DetachRestored(h, ki);
      VacateKeepsMaps(h4, ki);
      if Ordered(h) {
        DetachRestoredOrder(h, ki);
        VacateKeepsOrder(h4, ki);
      }
    }
  }

  lemma UpdateFixedSpec(h: IHeap, ki: int, value: Option<int>)
    requires WellFormed(h)
    ensures var (r, h') := UpdateFixed(h, ki, value);
      WellFormed(h') &&
      (r.Err? <==> CheckKeyAndValue(h, ki, value).Err?) &&
      (r.Err? ==> r.error == CheckKeyAndValue(h, ki, value).error && h' == h) &&
      (r.Ok? ==> r.value == Contents(h)[ki] && h'.sz == h.sz &&
                 Contents(h') == Contents(h)[ki := value.value]) &&
      (Ordered(h) ==> Ordered(h'))
  {
    if CheckKeyAndValue(h, ki, value).Ok? {
      ReplaceThenSettle(h, ki, value.value);
    }
  }

  /** Giving ki a new priority and sinking then swimming its slot keeps the heap well
      formed, replaces ki's priority, and keeps an ordered heap ordered. */
  lemma ReplaceThenSettle(h: IHeap, ki: int, v: int)
    requires WellFormed(h) && ki in Contents(h)
    ensures h.pm[ki] < h.sz
    ensures var r := Swim(SinkFixed(Reprioritize(h, ki, v), h.pm[ki]), h.pm[ki]);
      WellFormed(r) && r.sz == h.sz && Contents(r) == Contents(h)[ki := v] &&
      (Ordered(h) ==> Ordered(r))
  {
    SettleKeepsMaps(h, ki, v);
    if Ordered(h) {
      SettleKeepsOrder(h, ki, v);
    }
  }

  lemma SettleKeepsMaps(h: IHeap, ki: int, v: int)
    requires WellFormed(h) && ki in Contents(h)
    ensures h.pm[ki] < h.sz
    ensures var r := Swim(SinkFixed(Reprioritize(h, ki, v), h.pm[ki]), h.pm[ki]);
      WellFormed(r) && r.sz == h.sz && Contents(r) == Contents(h)[ki := v]
  {
    var i := h.pm[ki];
    var h1 := Reprioritize(h, ki, v);
    ReprioritizeKeepsMaps(h, ki, v);
    var h2 := SinkFixed(h1, i);
    SinkFixedKeepsMaps(h1, h1.sz, i);
    SwimKeepsMaps(h2, h1.sz, i);
  }

  lemma SettleKeepsOrder(h: IHeap, ki: int, v: int)
    requires WellFormed(h) && ki in Contents(h) && Ordered(h)
    ensures h.pm[ki] < h.sz
    ensures Ordered(Swim(SinkFixed(Reprioritize(h, ki, v), h.pm[ki]), h.pm[ki]))
  {
    var i := h.pm[ki];
    var h1 := Reprioritize(h, ki, v);
    ReprioritizeSpec(h, ki, v);
    OrderedButFrom(h, h1, i);
    SinkThenSwimRestoresOrder(h1, h1.sz, i, Val(h, i));
  }

  /** The corrected decrease changes nothing unless the new priority is strictly smaller,
      and keeps an ordered heap ordered. */
  lemma DecreaseFixedSpec(h: IHeap, ki: int, value: Option<int>)
    requires WellFormed(h)
    ensures var (r, h') := DecreaseFixed(h, ki, value);
      WellFormed(h') &&
      (r.Err? <==> CheckKeyAndValue(h, ki, value).Err?) &&
      (r.Err? ==> r == CheckKeyAndValue(h, ki, value) && h' == h) &&
      (r.Ok? ==> Contents(h') == if value.value < Contents(h)[ki]
                                 then Contents(h)[ki := value.value] else Contents(h)) &&
      (r.Ok? && value.value >= Contents(h)[ki] ==> h' == h) &&
      (Ordered(h) ==> Ordered(h'))
  {
    if CheckKeyAndValue(h, ki, value).Ok? && value.value < h.vals[ki].value {
      LowerThenSwim(h, ki, value.value);
    }
  }

  /** The corrected increase changes nothing unless the new priority is strictly larger,
      and keeps an ordered heap ordered. */
  lemma IncreaseFixedSpec(h: IHeap, ki: int, value: Option<int>)
    requires WellFormed(h)
    ensures var (r, h') := IncreaseFixed(h, ki, value);
      WellFormed(h') &&
      (r.Err? <==> CheckKeyAndValue(h, ki, value).Err?) &&
      (r.Err? ==> r == CheckKeyAndValue(h, ki, value) && h' == h) &&
      (r.Ok? ==> Contents(h') == if Contents(h)[ki] < value.value
                                 then Contents(h)[ki := value.value] else Contents(h)) &&
      (r.Ok? && value.value <= Contents(h)[ki] ==> h' == h) &&
      (Ordered(h) ==> Ordered(h'))
  {
    if CheckKeyAndValue(h, ki, value).Ok? && h.vals[ki].value < value.value {
      var i := h.pm[ki];
      var h1 := Reprioritize(h, ki, value.value);
      ReprioritizeSpec(h, ki, value.value);
      SinkFixedKeepsMaps(h1, h1.sz, i);
      if Ordered(h) {
        OrderedButFrom(h, h1, i);
        SinkReadyAbove(h1, i, Val(h, i));
        SinkFixedRestoresOrder(h1, h1.sz, i);
      }
    }
  }
}
