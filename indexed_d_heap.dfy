/**
 * MinIndexedDHeap: the indexed D-ary minimum heap over fixed arrays, method by method as the
 * source writes it.  Each method is proved to do to the abstract state what the matching
 * function of IndexedDHeapSpec does, and the properties of the heap are the lemmas proved
 * there.
 */
module IndexedDHeap {
  import opened Common
  import opened IndexedHeapCore
  import Spec = IndexedDHeapSpec

  class MinIndexedDHeap {
    const D: nat
    const N: nat
    var sz: nat
    /** child[i] = i * D + 1 */
    const child: array<int>
    /** parent[i] = (i - 1) // D, and None for the root */
    const parent: array<Option<int>>
    /** position map: key index -> slot, -1 when absent */
    const pm: array<int>
    /** inverse map: slot -> key index, -1 when the slot is free */
    const im: array<int>
    /** the priority of each key index, None when absent */
    const values: array<Option<int>>

    /** The abstract state of the heap. */
    ghost function Abs(): IHeap
      reads this, pm, im, values
    {
      IHeap(D, sz, pm[..], im[..], values[..])
    }

    /** The arrays are distinct and N long, and the parent and child tables hold what the
        constructor put there. */
    ghost predicate Tables()
      reads this, child, parent, pm, im, values
    {
      child != pm && child != im && pm != im && parent != values &&
      D >= 2 && N >= D + 1 && sz <= N &&
      child.Length == N && parent.Length == N && pm.Length == N && im.Length == N &&
      values.Length == N &&
      (forall i :: 0 <= i < N ==> child[i] == FirstChild(D, i)) &&
      parent[0] == None && (forall i :: 0 < i < N ==> parent[i] == Some(Parent(D, i)))
    }

    ghost predicate Valid()
      reads this, child, parent, pm, im, values
    {
      Tables() && Spec.WellFormed(Abs())
    }

    /** __init__ for max_size > 0; Create models the ValueError of max_size <= 0. */
    constructor (degree: int, maxSize: int)
      requires maxSize > 0
      ensures Valid() && Spec.Init(degree, maxSize) == Ok(Abs())
    {
      var d := Max(2, degree);
      var n := Max(d + 1, maxSize);
      D, N := d, n;
      sz := 0;
      var childTable, parentTable := BuildTables(d, n);
      child, parent := childTable, parentTable;
      pm := new int[n](_ => -1);
      im := new int[n](_ => -1);
      values := new Option<int>[n](_ => None);
      new;
      assert pm[..] == seq(n, _ => -1);
      assert im[..] == seq(n, _ => -1);
      assert values[..] == seq(n, _ => None);
      Spec.InitSpec(degree, maxSize);
    }

    method Size() returns (r: nat)
      requires Valid()
      ensures r == |Contents(Abs())|
    {
      r := sz;
      ContentsSize(Abs());
    }

    method IsEmpty() returns (r: bool)
      requires Valid()
      ensures r <==> Contents(Abs()) == map[]
    {
      r := sz == 0;
      ContentsSize(Abs());
    }

    method Contains(ki: int) returns (r: Result<bool>)
      requires Valid()
      ensures r == Spec.Contains(Abs(), ki)
    {
      if ki < 0 || ki >= N {
        return Err(IndexError);
      }
      return Ok(pm[ki] != -1);
    }

    method PeekMinKeyIndex() returns (r: Result<int>)
      requires Valid()
      ensures r == Spec.PeekMinKeyIndex(Abs())
    {
      if sz == 0 {
        return Err(ValueError);
      }
      return Ok(im[0]);
    }

    method PeekMinValue() returns (r: Result<int>)
      requires Valid()
      ensures r == Spec.PeekMinValue(Abs())
    {
      if sz == 0 {
        return Err(ValueError);
      }
      return Ok(values[im[0]].value);
    }

    method ValueOf(ki: int) returns (r: Result<int>)
      requires Valid()
      ensures r == Spec.ValueOf(Abs(), ki)
    {
      var c := Contains(ki);
      if c.Err? {
        return Err(c.error);
      }
      if !c.value {
        return Err(ValueError);
      }
      return Ok(values[ki].value);
    }

    /** key_exists_and_value_not_null_or_throw */
    method CheckKeyAndValue(ki: int, value: Option<int>) returns (r: Result<()>)
      requires Valid()
      ensures r == Spec.CheckKeyAndValue(Abs(), ki, value)
    {
      var c := Contains(ki);
      if c.Err? {
        return Err(c.error);
      }
      if !c.value {
        return Err(ValueError);
      }
      if value.None? {
        return Err(ValueError);
      }
      return Ok(());
    }

    method Insert(ki: int, value: Option<int>) returns (r: Result<()>)
      requires Valid()
      modifies this, pm, im, values
      ensures Valid() && (r, Abs()) == Spec.Insert(old(Abs()), ki, value)
    {
      var c := Contains(ki);
      if c.Err? {
        return Err(c.error);
      }
      if c.value {
        return Err(ValueError);
      }
      if value.None? {
        return Err(ValueError);
      }
      ghost var h := Abs();
      PlaceKeepsMaps(h, ki, value.value);
      pm[ki] := sz;
      im[sz] := ki;
      values[ki] := value;
      sz := sz + 1;
      ghost var h1 := IndexedHeapCore.Place(h, ki, value.value);
      assert Abs() == h1;
      MapsFilled(h1, h1.sz, h1.sz);
      Swim(sz - 1);
      assert Spec.Insert(h, ki, value) == (Ok(()), Abs());
      assert Spec.WellFormed(Abs()) by {
        Spec.InsertSpec(h, ki, value);
      }
      r := Ok(());
    }

    method Delete(ki: int) returns (r: Result<int>)
      requires Valid()
      modifies this, pm, im, values
      ensures Tables() && (r, Abs()) == Spec.Delete(old(Abs()), ki)
      ensures !Spec.LastKeyRises(old(Abs()), ki) ==> Valid()
    {
      var c := Contains(ki);
      if c.Err? {
        return Err(c.error);
      }
      if !c.value {
        return Err(ValueError);
      }
      ghost var h := Abs();
      var i := Detach(ki);
      DetachSpec(h, ki);
      SinkThenSwim(i, h.sz);
      var value := values[ki];
      Vacate(ki);
      r := Ok(value.value);
      assert Spec.Delete(h, ki) == (r, Abs()) by {
        Spec.DeletePresent(h, ki);
      }
      assert !Spec.LastKeyRises(h, ki) ==> Spec.WellFormed(Abs()) by {
        Spec.DeleteSpec(h, ki);
      }
    }

    method Update(ki: int, value: Option<int>) returns (r: Result<int>)
      requires Valid()
      modifies pm, im, values
      ensures Valid() && (r, Abs()) == Spec.Update(old(Abs()), ki, value)
    {
      var c := CheckKeyAndValue(ki, value);
      if c.Err? {
        return Err(c.error);
      }
      ghost var h := Abs();
      Spec.ReprioritizeSpec(h, ki, value.value);
      var i := pm[ki];
      var oldValue := values[ki];
      values[ki] := value;
      ghost var h1 := Spec.Reprioritize(h, ki, value.value);
      assert Abs() == h1;
      SinkThenSwim(i, sz);
      r := Ok(oldValue.value);
      assert Spec.Update(h, ki, value) == (r, Abs());
      assert Spec.WellFormed(Abs()) by {
        Spec.UpdateSpec(h, ki, value);
      }
    }

    method Decrease(ki: int, value: Option<int>) returns (r: Result<()>)
      requires Valid()
      modifies pm, im, values
      ensures Valid() && (r, Abs()) == Spec.Decrease(old(Abs()), ki, value)
    {
      var c := CheckKeyAndValue(ki, value);
      if c.Err? {
        return Err(c.error);
      }
      ghost var h := Abs();
      var less := Less(value.value, values[ki].value);
      if less.Err? {
        return Err(less.error);
      }
      if less.value {
        Spec.ReprioritizeSpec(h, ki, value.value);
        values[ki] := value;
        ghost var h1 := Spec.Reprioritize(h, ki, value.value);
        assert Abs() == h1;
        MapsFilled(h1, sz, pm[ki] + 1);
        Swim(pm[ki]);
      }
      r := Ok(());
      assert Spec.Decrease(h, ki, value) == (r, Abs());
      assert Spec.WellFormed(Abs()) by {
        Spec.DecreaseSpec(h, ki, value);
      }
    }

    method Increase(ki: int, value: Option<int>) returns (r: Result<()>)
      requires Valid()
      modifies pm, im, values
      ensures Valid() && (r, Abs()) == Spec.Increase(old(Abs()), ki, value)
    {
      var c := CheckKeyAndValue(ki, value);
      if c.Err? {
        return Err(c.error);
      }
      ghost var h := Abs();
      var less := Less(values[ki].value, value.value);
      if less.Err? {
        return Err(less.error);
      }
      if less.value {
        Spec.ReprioritizeSpec(h, ki, value.value);
        values[ki] := value;
        ghost var h1 := Spec.Reprioritize(h, ki, value.value);
        assert Abs() == h1;
        MapsFilled(h1, sz, sz);
        Sink(pm[ki]);
      }
      r := Ok(());
      assert Spec.Increase(h, ki, value) == (r, Abs());
      assert Spec.WellFormed(Abs()) by {
        Spec.IncreaseSpec(h, ki, value);
      }
    }

    method PollMinKeyIndex() returns (r: Result<int>)
      requires Valid()
      modifies this, pm, im, values
      ensures Valid() && (r, Abs()) == Spec.PollMinKeyIndex(old(Abs()))
    {
      var k := PeekMinKeyIndex();
      if k.Err? {
        return Err(k.error);
      }
      Spec.PollNeverRises(Abs());
      var d := Delete(k.value);
      if d.Err? {
        return Err(d.error);
      }
      r := Ok(k.value);
    }

    method PollMinValue() returns (r: Result<int>)
      requires Valid()
      modifies this, pm, im, values
      ensures Valid() && (r, Abs()) == Spec.PollMinValue(old(Abs()))
    {
      var v := PeekMinValue();
      if v.Err? {
        return Err(v.error);
      }
      var k := PeekMinKeyIndex();
      Spec.PollNeverRises(Abs());
      var d := Delete(k.value);
      if d.Err? {
        return Err(d.error);
      }
      r := Ok(v.value);
    }

    /** The first steps of delete: the slot of ki is exchanged with the last occupied slot
        and the heap shrinks by one; i is the slot ki came from. */
    method Detach(ki: nat) returns (i: nat)
      requires Valid() && ki in Contents(Abs())
      modifies this, pm, im
      ensures Tables() && Abs() == IndexedHeapCore.Detach(old(Abs()), ki) && i == old(pm[ki])
    {
      i := pm[ki];
      Swap(i, sz - 1);
      sz := sz - 1;
    }

    /** The last steps of delete: ki loses its priority and its position, and the slot just
        past the occupied ones is marked free. */
    method Vacate(ki: nat)
      requires Tables() && ki < N && sz < N
      modifies pm, im, values
      ensures Tables() && Abs() == Spec.Vacate(old(Abs()), ki)
    {
      values[ki] := None;
      pm[ki] := -1;
      im[sz] := -1;
    }

    /** The sink and then the swim at slot i with which delete and update end; the maps are
        inverse on the slots [0, n). */
    method SinkThenSwim(i: nat, ghost n: nat)
      requires Tables() && MapsInverseUpTo(Abs(), n) && i <= sz && i < n
      modifies pm, im
      ensures Tables() && Abs() == IndexedHeapCore.Swim(SinkToLeaf(old(Abs()), i), i)
    {
      MapsFilled(Abs(), n, sz);
      Sink(i);
      SinkToLeafKeepsMaps(old(Abs()), n, i);
      MapsFilled(Abs(), n, i + 1);
      Swim(i);
    }

    /** swim: while slot i is strictly smaller than its parent, exchange the two. */
    method Swim(i: nat)
      requires Tables() && i < N && Filled(Abs(), i + 1)
      modifies pm, im
      ensures Tables() && Abs() == IndexedHeapCore.Swim(old(Abs()), i)
    {
      var cur: nat := i;
      while cur > 0
        invariant Tables() && cur <= i && Filled(Abs(), cur + 1)
        invariant IndexedHeapCore.Swim(Abs(), cur) == IndexedHeapCore.Swim(old(Abs()), i)
        decreases cur
      {
        ghost var h := Abs();
        var p := parent[cur].value;
        var less := Less(cur, p);
        if less != Ok(true) {
          break;
        }
        SwimExchange(cur, p);
        cur := p;
      }
    }

    /** One round of swim: slot cur, smaller than its parent p, is exchanged with it. */
    method SwimExchange(cur: nat, p: nat)
      requires Tables() && 0 < cur < N && p == Parent(D, cur) && Filled(Abs(), cur + 1)
      requires Val(Abs(), cur) < Val(Abs(), p)
      modifies pm, im
      ensures Tables() && p < cur && Filled(Abs(), p + 1)
      ensures IndexedHeapCore.Swim(Abs(), p) == IndexedHeapCore.Swim(old(Abs()), cur)
    {
      ghost var h := Abs();
      SwimStep(h, cur);
      SwapKeepsFilled(h, cur + 1, cur, p);
      Swap(cur, p);
    }

    /** sink as written: exchange slot i with its least child until it has none. */
    method Sink(i: nat)
      requires Tables() && i < N && i <= sz && Filled(Abs(), sz)
      modifies pm, im
      ensures Tables() && Abs() == SinkToLeaf(old(Abs()), i)
    {
      var cur := i;
      while true
        invariant Tables() && cur < N && cur <= sz && Filled(Abs(), sz)
        invariant SinkToLeaf(Abs(), cur) == SinkToLeaf(old(Abs()), i)
        decreases sz - cur
      {
        var m := MinChild(cur);
        MinChildScanSpec(Abs(), cur);
        if m == -1 {
          break;
        }
        SwapKeepsFilled(Abs(), sz, cur, m);
        Swap(cur, m);
        cur := m;
      }
    }

    /** min_child: the first occupied child of slot i of least priority, or -1. */
    method MinChild(i: nat) returns (m: int)
      requires Tables() && i < N && Filled(Abs(), sz)
      ensures m == MinChildScan(Abs(), i)
    {
      m := -1;
      var from := child[i];
      var hi := Min(sz, from + D);
      var j := from;
      while j < hi
        invariant from <= j && (j <= hi || j == from)
        invariant m == -1 || from <= m < j
        invariant Scan(Abs(), j, hi, m) == Scan(Abs(), from, hi, -1)
      {
        if j < sz {
          var smaller := false;
          if m != -1 {
            var less := Less(j, m);
            smaller := less == Ok(true);
          }
          if m == -1 || smaller {
            m := j;
          }
        }
        j := j + 1;
      }
    }

    /** swap: exchange the keys of slots i and j and re-point both positions. */
    method Swap(i: nat, j: nat)
      requires Tables() && i < N && j < N
      requires 0 <= im[i] < N && 0 <= im[j] < N
      modifies pm, im
      ensures Tables() && Abs() == IndexedHeapCore.Swap(old(Abs()), i, j)
    {
      im[i], im[j] := im[j], im[i];
      pm[im[i]] := i;
      pm[im[j]] := j;
    }

    /** less: values[im[i]] < values[im[j]], with Python's indexing of the arrays. */
    method Less(i: int, j: int) returns (r: Result<bool>)
      requires Tables()
      ensures r == Spec.SlotLess(Abs(), i, j)
    {
      var n: int := N;
      if !(-n <= i < n) {
        return Err(IndexError);
      }
      var ki := im[if i < 0 then n + i else i];
      if !(-n <= ki < n) {
        return Err(IndexError);
      }
      var vi := values[if ki < 0 then n + ki else ki];
      if !(-n <= j < n) {
        return Err(IndexError);
      }
      var kj := im[if j < 0 then n + j else j];
      if !(-n <= kj < n) {
        return Err(IndexError);
      }
      var vj := values[if kj < 0 then n + kj else kj];
      if vi.None? || vj.None? {
        return Err(TypeError);
      }
      return Ok(vi.value < vj.value);
    }
  }

  /** The loop of __init__ that fills the child and parent tables of a d-ary heap with n
      slots. */
  method BuildTables(d: nat, n: nat) returns (child: array<int>, parent: array<Option<int>>)
    requires d >= 1 && n >= 1
    ensures fresh(child) && fresh(parent) && child.Length == n && parent.Length == n
    ensures forall i :: 0 <= i < n ==> child[i] == FirstChild(d, i)
    ensures parent[0] == None && forall i :: 0 < i < n ==> parent[i] == Some(Parent(d, i))
  {
    child := new int[n](_ => 0);
    parent := new Option<int>[n](_ => None);
    for i := 0 to n
      invariant forall k :: 0 <= k < i ==> child[k] == FirstChild(d, k)
      invariant parent[0] == None && forall k :: 0 < k < i ==> parent[k] == Some(Parent(d, k))
    {
      // floor division: d > 0, so Python's // and Dafny's / agree
      var p := (i - 1) / d;
      assert i == 0 ==> p == -1;
      parent[i] := if p < 0 then None else Some(p);
      child[i] := i * d + 1;
    }
  }

  /** __init__ with its error path: max_size <= 0 raises ValueError. */
  method Create(degree: int, maxSize: int) returns (r: Result<MinIndexedDHeap>)
    ensures r.Err? <==> maxSize <= 0
    ensures r.Err? ==> r.error == ValueError
    ensures r.Ok? ==> fresh(r.value) && r.value.Valid() &&
                      Spec.Init(degree, maxSize) == Ok(r.value.Abs())
  {
    if maxSize <= 0 {
      return Err(ValueError);
    }
    var heap := new MinIndexedDHeap(degree, maxSize);
    return Ok(heap);
  }
}
