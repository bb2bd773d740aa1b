/**
 * The state shared by the two indexed minimum heaps (the D-ary one and the binary one):
 * key indices 0..N-1 are placed in the slots of an implicit d-ary tree.
 *   pm   : key index -> heap slot, -1 when the key is absent (position map)
 *   im   : heap slot -> key index (inverse map), meaningful on slots [0, sz)
 *   vals : the priority stored for each key index, None when the key is absent
 * This module gives the slot-level operations both heaps share (swap, swim and the two
 * flavours of sink) as functions, and proves what each of them keeps.
 */
module IndexedHeapCore {
  import opened Common

  datatype IHeap = IHeap(d: nat, sz: nat, pm: seq<int>, im: seq<int>, vals: seq<Option<int>>)

  /** Lengths agree: N key indices and N slots; at most N slots are occupied. */
  predicate Shaped(h: IHeap) {
    h.d >= 1 && |h.im| == |h.pm| && |h.vals| == |h.pm| && h.sz <= |h.pm|
  }

  /** Priority of the key in slot s (0 when the slot holds no key with a priority). */
  function Val(h: IHeap, s: int): int {
    if 0 <= s < |h.im| && 0 <= h.im[s] < |h.vals| && h.vals[h.im[s]].Some?
    then h.vals[h.im[s]].value else 0
  }

  /** Slots [0, b) all hold key indices. */
  predicate KeysBelow(h: IHeap, b: int)
    requires Shaped(h)
  {
    b <= |h.im| && forall s :: 0 <= s < b ==> 0 <= h.im[s] < |h.pm|
  }

  /** The position map and the inverse map are mutually inverse on the slots [0, n), which
      cover the occupied ones, and a key is present exactly when it has a priority.  During a
      deletion n is sz + 1: the departing key still sits in the slot just vacated. */
  predicate MapsInverseUpTo(h: IHeap, n: nat) {
    Shaped(h) && h.sz <= n <= |h.pm| &&
    (forall s :: 0 <= s < n ==> 0 <= h.im[s] < |h.pm| && h.pm[h.im[s]] == s) &&
    (forall k :: 0 <= k < |h.pm| ==> (h.pm[k] == -1 <==> h.vals[k].None?)) &&
    (forall k :: 0 <= k < |h.pm| && h.pm[k] != -1 ==> 0 <= h.pm[k] < n && h.im[h.pm[k]] == k)
  }

  /** The maps are mutually inverse on exactly the occupied slots. */
  predicate MapsInverse(h: IHeap) {
    MapsInverseUpTo(h, h.sz)
  }

  /** Slots [0, b) hold key indices that carry a priority, so that comparing them is
      defined. */
  predicate Filled(h: IHeap, b: int)
    requires Shaped(h)
  {
    0 <= b <= |h.im| && forall s :: 0 <= s < b ==> 0 <= h.im[s] < |h.pm| && h.vals[h.im[s]].Some?
  }

  lemma MapsFilled(h: IHeap, n: nat, b: int)
    requires MapsInverseUpTo(h, n) && 0 <= b <= n
    ensures Filled(h, b) && KeysBelow(h, b)
  {
    forall s | 0 <= s < b
      ensures h.vals[h.im[s]].Some?
    {
      assert h.pm[h.im[s]] == s;
    }
  }

  /** Every key is in [0, N); the present ones with their priorities. */
  function Contents(h: IHeap): map<int, int> {
    map k | 0 <= k < |h.vals| && h.vals[k].Some? :: h.vals[k].value
  }

  /** The min-heap property: no occupied slot is smaller than its parent. */
  predicate Ordered(h: IHeap)
    requires Shaped(h)
  {
    forall s :: 0 < s < h.sz ==> Val(h, Parent(h.d, s)) <= Val(h, s)
  }

  // ---------------------------------------------------------------- swap

  /** Exchanges the keys of slots i and j and re-points the position map at both;
      nothing else changes. */
  function Swap(h: IHeap, i: nat, j: nat): (r: IHeap)
    requires Shaped(h) && i < |h.im| && j < |h.im|
    requires 0 <= h.im[i] < |h.pm| && 0 <= h.im[j] < |h.pm|
    ensures Shaped(r) && r.d == h.d && r.sz == h.sz && r.vals == h.vals && |r.pm| == |h.pm|
    ensures r.im[i] == h.im[j] && r.im[j] == h.im[i]
    ensures forall s :: 0 <= s < |h.im| && s != i && s != j ==> r.im[s] == h.im[s]
    ensures r.pm[h.im[i]] == j && (h.im[i] != h.im[j] ==> r.pm[h.im[j]] == i)
    ensures forall k :: 0 <= k < |h.pm| && k != h.im[i] && k != h.im[j] ==> r.pm[k] == h.pm[k]
  {
    var im := h.im[i := h.im[j]][j := h.im[i]];
    h.(im := im, pm := h.pm[im[i] := i][im[j] := j])
  }

  lemma SwapKeepsFilled(h: IHeap, b: int, i: nat, j: nat)
    requires Shaped(h) && Filled(h, b) && i < b && j < b
    ensures Filled(Swap(h, i, j), b) && KeysBelow(Swap(h, i, j), b)
  {
  }

  lemma SwapKeepsMaps(h: IHeap, n: nat, i: nat, j: nat)
    requires MapsInverseUpTo(h, n) && i < n && j < n
    ensures MapsInverseUpTo(Swap(h, i, j), n)
    ensures Contents(Swap(h, i, j)) == Contents(h)
    ensures Val(Swap(h, i, j), i) == Val(h, j) && Val(Swap(h, i, j), j) == Val(h, i)
    ensures forall s :: s != i && s != j ==> Val(Swap(h, i, j), s) == Val(h, s)
  {
    var r := Swap(h, i, j);
    forall k | 0 <= k < |r.pm| && r.pm[k] != -1
      ensures 0 <= r.pm[k] < n && r.im[r.pm[k]] == k
    {
      if k == h.im[i] {
      } else if k == h.im[j] {
      } else {
        assert h.pm[k] != i && h.pm[k] != j;
      }
    }
  }

  // ---------------------------------------------------------------- swim

  /** swim: while slot i is strictly smaller than its parent, exchange them and move up. */
  function Swim(h: IHeap, i: nat): (r: IHeap)
    requires Shaped(h) && i < |h.im| && KeysBelow(h, i + 1)
    ensures Shaped(r) && r.d == h.d && r.sz == h.sz && r.vals == h.vals && |r.pm| == |h.pm|
    ensures KeysBelow(r, i + 1)
    ensures forall s :: i < s < |h.im| ==> r.im[s] == h.im[s]
    decreases i
  {
    if i > 0 && Val(h, i) < Val(h, Parent(h.d, i)) then
      Swim(Swap(h, i, Parent(h.d, i)), Parent(h.d, i))
    else
      h
  }

  /** One round of swim's loop: the slot exchanged with its parent continues from there. */
  lemma SwimStep(h: IHeap, i: nat)
    requires Shaped(h) && 0 < i < |h.im| && KeysBelow(h, i + 1)
    requires Val(h, i) < Val(h, Parent(h.d, i))
    ensures Parent(h.d, i) < i && KeysBelow(Swap(h, i, Parent(h.d, i)), Parent(h.d, i) + 1)
    ensures Swim(h, i) == Swim(Swap(h, i, Parent(h.d, i)), Parent(h.d, i))
  {
  }

  lemma {:induction false} SwimKeepsMaps(h: IHeap, n: nat, i: nat)
    requires MapsInverseUpTo(h, n) && i < n
    ensures MapsInverseUpTo(Swim(h, i), n) && Contents(Swim(h, i)) == Contents(h)
    decreases i
  {
    if i > 0 && Val(h, i) < Val(h, Parent(h.d, i)) {
      SwapKeepsMaps(h, n, i, Parent(h.d, i));
      SwimKeepsMaps(Swap(h, i, Parent(h.d, i)), n, Parent(h.d, i));
    }
  }

  /** What swim needs: the heap is ordered except possibly between slot i and its parent,
      and the parent of i is no larger than the children of i. */
  predicate SwimReady(h: IHeap, i: nat)
    requires Shaped(h)
  {
    (forall s :: 0 < s < h.sz && s != i ==> Val(h, Parent(h.d, s)) <= Val(h, s)) &&
    (i > 0 ==> forall s :: 0 < s < h.sz && Parent(h.d, s) == i ==> Val(h, Parent(h.d, i)) <= Val(h, s))
  }

  lemma {:induction false} SwimRestoresOrder(h: IHeap, n: nat, i: nat)
    requires MapsInverseUpTo(h, n) && i < h.sz && SwimReady(h, i)
    ensures Ordered(Swim(h, i))
    decreases i
  {
    if i > 0 && Val(h, i) < Val(h, Parent(h.d, i)) {
      var p := Parent(h.d, i);
      SwapKeepsMaps(h, n, i, p);
      var h' := Swap(h, i, p);
      forall s | 0 < s < h'.sz && s != p
        ensures Val(h', Parent(h'.d, s)) <= Val(h', s)
      {
        var ps := Parent(h.d, s);
        if s == i {
        } else if ps == i {
        } else if ps == p {
          assert Val(h, p) <= Val(h, s);
        } else {
          assert s != i && s != p && ps != i && ps != p;
        }
      }
      if p > 0 {
        forall s | 0 < s < h'.sz && Parent(h'.d, s) == p
          ensures Val(h', Parent(h'.d, p)) <= Val(h', s)
        {
          assert Val(h, Parent(h.d, p)) <= Val(h, p);
          if s != i {
            assert Val(h, p) <= Val(h, s);
          }
        }
      }
      SwimRestoresOrder(h', n, p);
    }
  }

  lemma SwimOrderedIsNoop(h: IHeap, i: nat)
    requires Shaped(h) && i < h.sz && KeysBelow(h, h.sz) && Ordered(h)
    ensures Swim(h, i) == h
  {
  }

  // ---------------------------------------------------------------- scanning children

  /** Scans slots [j, hi) and keeps the first slot that is strictly smaller than the best
      slot so far; best == -1 means that no slot has been kept yet. */
  function Scan(h: IHeap, j: int, hi: int, best: int): int
    decreases hi - j
  {
    if j >= hi then best
    else Scan(h, j + 1, hi, if best == -1 || Val(h, j) < Val(h, best) then j else best)
  }

  lemma {:induction false} ScanResult(h: IHeap, j: int, hi: int, best: int)
    requires 0 <= j && best < j
    ensures Scan(h, j, hi, best) == best || j <= Scan(h, j, hi, best) < hi
    ensures Scan(h, j, hi, best) == -1 <==> best == -1 && j >= hi
    ensures Scan(h, j, hi, best) != -1 ==>
      forall k :: j <= k < hi ==> Val(h, Scan(h, j, hi, best)) <= Val(h, k)
    ensures best != -1 ==> Val(h, Scan(h, j, hi, best)) <= Val(h, best)
    ensures best != -1 && Scan(h, j, hi, best) != best ==> Val(h, Scan(h, j, hi, best)) < Val(h, best)
    ensures forall k :: j <= k < hi && k < Scan(h, j, hi, best) ==> Val(h, Scan(h, j, hi, best)) < Val(h, k)
    decreases hi - j
  {
    if j < hi {
      var b := if best == -1 || Val(h, j) < Val(h, best) then j else best;
      ScanResult(h, j + 1, hi, b);
    }
  }

  /** min_child as the indexed D-ary heap writes it: among the children of slot i that are
      occupied, the first one of least priority, or -1 when slot i has no occupied child.
      Slot i itself takes no part in the comparison. */
  function MinChildScan(h: IHeap, i: nat): int
    requires h.d >= 1
  {
    Scan(h, FirstChild(h.d, i), Min(h.sz, FirstChild(h.d, i) + h.d), -1)
  }

  /** The sink step as a correct heap takes it: the first child strictly smaller than slot i
      and than every earlier child, or i itself when no child is smaller than slot i. */
  function MinChildFixed(h: IHeap, i: nat): int
    requires h.d >= 1
  {
    Scan(h, FirstChild(h.d, i), Min(h.sz, FirstChild(h.d, i) + h.d), i)
  }

  lemma MinChildScanSpec(h: IHeap, i: nat)
    requires h.d >= 1
    ensures var m := MinChildScan(h, i);
      (m == -1 <==> FirstChild(h.d, i) >= h.sz) &&
      (m != -1 ==> 1 <= m < h.sz && Parent(h.d, m) == i && m > i) &&
      (m != -1 ==> forall s :: 0 < s < h.sz && Parent(h.d, s) == i ==> Val(h, m) <= Val(h, s)) &&
      (m != -1 ==> forall s :: 0 < s < m && Parent(h.d, s) == i ==> Val(h, m) < Val(h, s))
  {
    var f := FirstChild(h.d, i);
    var hi := Min(h.sz, f + h.d);
    ScanResult(h, f, hi, -1);
    ChildAfter(h.d, i);
    var m := MinChildScan(h, i);
    if m != -1 {
      ChildRange(h.d, i, m);
      forall s | 0 < s < h.sz && Parent(h.d, s) == i
        ensures Val(h, m) <= Val(h, s)
      {
        ChildRange(h.d, i, s);
      }
      forall s | 0 < s < m && Parent(h.d, s) == i
        ensures Val(h, m) < Val(h, s)
      {
        ChildRange(h.d, i, s);
      }
    }
  }

  lemma MinChildFixedSpec(h: IHeap, i: nat)
    requires h.d >= 1
    ensures var m := MinChildFixed(h, i);
      (m == i ==> forall s :: 0 < s < h.sz && Parent(h.d, s) == i ==> Val(h, i) <= Val(h, s)) &&
      (m != i ==> 1 <= m < h.sz && Parent(h.d, m) == i && m > i && Val(h, m) < Val(h, i)) &&
      (m != i ==> forall s :: 0 < s < h.sz && Parent(h.d, s) == i ==> Val(h, m) <= Val(h, s))
  {
    var f := FirstChild(h.d, i);
    var hi := Min(h.sz, f + h.d);
    ScanResult(h, f, hi, i);
    ChildAfter(h.d, i);
    var m := MinChildFixed(h, i);
    forall s | 0 < s < h.sz && Parent(h.d, s) == i
      ensures Val(h, m) <= Val(h, s)
    {
      ChildRange(h.d, i, s);
    }
    if m != i {
      ChildRange(h.d, i, m);
    }
  }

  // ---------------------------------------------------------------- sink, as the D-ary heap writes it

  /** sink as the indexed D-ary heap writes it: exchange slot i with its least child for as
      long as it has an occupied child, whatever their priorities. */
  function SinkToLeaf(h: IHeap, i: nat): (r: IHeap)
    requires Shaped(h) && i <= h.sz && KeysBelow(h, h.sz)
    ensures Shaped(r) && r.d == h.d && r.sz == h.sz && r.vals == h.vals && |r.pm| == |h.pm|
    ensures KeysBelow(r, r.sz)
    ensures forall s :: h.sz <= s < |h.im| ==> r.im[s] == h.im[s]
    decreases h.sz - i
  {
    var m := MinChildScan(h, i);
    MinChildScanSpec(h, i);
    if m == -1 then h else SinkToLeaf(Swap(h, i, m), m)
  }

  lemma {:induction false} SinkToLeafKeepsMaps(h: IHeap, n: nat, i: nat)
    requires MapsInverseUpTo(h, n) && i <= h.sz
    ensures MapsInverseUpTo(SinkToLeaf(h, i), n) && Contents(SinkToLeaf(h, i)) == Contents(h)
    decreases h.sz - i
  {
    var m := MinChildScan(h, i);
    MinChildScanSpec(h, i);
    if m != -1 {
      SwapKeepsMaps(h, n, i, m);
      SinkToLeafKeepsMaps(Swap(h, i, m), n, m);
    }
  }

  /** The key that starts in slot i ends in a slot without occupied children. */
  lemma {:induction false} SinkToLeafEndsAtLeaf(h: IHeap, i: nat)
    requires MapsInverse(h) && i < h.sz
    ensures var r := SinkToLeaf(h, i);
      0 <= r.pm[h.im[i]] < r.sz && FirstChild(r.d, r.pm[h.im[i]]) >= r.sz
    decreases h.sz - i
  {
    var m := MinChildScan(h, i);
    MinChildScanSpec(h, i);
    SinkToLeafKeepsMaps(h, h.sz, i);
    if m != -1 {
      SwapKeepsMaps(h, h.sz, i, m);
      SinkToLeafEndsAtLeaf(Swap(h, i, m), m);
    }
  }

  // ---------------------------------------------------------------- sink, corrected

  /** sink as a correct heap does it: exchange slot i with its least child only while that
      child is strictly smaller than slot i. */
  function SinkFixed(h: IHeap, i: nat): (r: IHeap)
    requires Shaped(h) && i <= h.sz && KeysBelow(h, h.sz)
    ensures Shaped(r) && r.d == h.d && r.sz == h.sz && r.vals == h.vals && |r.pm| == |h.pm|
    ensures KeysBelow(r, r.sz)
    ensures forall s :: h.sz <= s < |h.im| ==> r.im[s] == h.im[s]
    decreases h.sz - i
  {
    var m := MinChildFixed(h, i);
    MinChildFixedSpec(h, i);
    if m == i then h else SinkFixed(Swap(h, i, m), m)
  }

  lemma {:induction false} SinkFixedKeepsMaps(h: IHeap, n: nat, i: nat)
    requires MapsInverseUpTo(h, n) && i <= h.sz
    ensures MapsInverseUpTo(SinkFixed(h, i), n) && Contents(SinkFixed(h, i)) == Contents(h)
    decreases h.sz - i
  {
    var m := MinChildFixed(h, i);
    MinChildFixedSpec(h, i);
    if m != i {
      SwapKeepsMaps(h, n, i, m);
      SinkFixedKeepsMaps(Swap(h, i, m), n, m);
    }
  }

  /** What sink needs: the heap is ordered except possibly between slot i and its children,
      and the parent of i is no larger than the children of i. */
  predicate SinkReady(h: IHeap, i: nat)
    requires Shaped(h)
  {
    (forall s :: 0 < s < h.sz && Parent(h.d, s) != i ==> Val(h, Parent(h.d, s)) <= Val(h, s)) &&
    (i > 0 ==> forall s :: 0 < s < h.sz && Parent(h.d, s) == i ==> Val(h, Parent(h.d, i)) <= Val(h, s))
  }

  lemma {:induction false} SinkFixedRestoresOrder(h: IHeap, n: nat, i: nat)
    requires MapsInverseUpTo(h, n) && i < h.sz && SinkReady(h, i)
    ensures Ordered(SinkFixed(h, i))
    decreases h.sz - i
  {
    var m := MinChildFixed(h, i);
    MinChildFixedSpec(h, i);
    if m != i {
      SwapKeepsMaps(h, n, i, m);
      var h' := Swap(h, i, m);
      forall s | 0 < s < h'.sz && Parent(h'.d, s) != m
        ensures Val(h', Parent(h'.d, s)) <= Val(h', s)
      {
        var ps := Parent(h.d, s);
        if s == m {
        } else if ps == i {
        } else if s == i {
          assert Val(h, Parent(h.d, i)) <= Val(h, m);
        } else {
          assert s != i && s != m && ps != i && ps != m;
        }
      }
      forall s | 0 < s < h'.sz && Parent(h'.d, s) == m
        ensures Val(h', Parent(h'.d, m)) <= Val(h', s)
      {
        ChildAfter(h.d, m);
        ChildRange(h.d, m, s);
        assert s > m;
      }
      SinkFixedRestoresOrder(h', n, m);
    }
  }

  /** Sinking a slot that is no larger than its children changes nothing. */
  lemma SinkFixedStaysPut(h: IHeap, i: nat)
    requires Shaped(h) && i <= h.sz && KeysBelow(h, h.sz)
    requires forall s :: 0 < s < h.sz && Parent(h.d, s) == i ==> Val(h, i) <= Val(h, s)
    ensures SinkFixed(h, i) == h
  {
    MinChildFixedSpec(h, i);
  }

  // ---------------------------------------------------------------- one slot changed

  /** The heap is ordered except around slot i, and w (the priority slot i held before)
      lies between the priority of its parent and those of its children. */
  predicate OrderedBut(h: IHeap, i: nat, w: int)
    requires Shaped(h)
  {
    (forall s :: 0 < s < h.sz && s != i && Parent(h.d, s) != i ==> Val(h, Parent(h.d, s)) <= Val(h, s)) &&
    (i > 0 ==> Val(h, Parent(h.d, i)) <= w) &&
    (forall s :: 0 < s < h.sz && Parent(h.d, s) == i ==> w <= Val(h, s))
  }

  /** Changing the priority of one slot of an ordered heap (or giving up its last slots)
      leaves it ordered but at that slot. */
  lemma OrderedButFrom(h: IHeap, h': IHeap, i: nat)
    requires Shaped(h) && Shaped(h') && Ordered(h) && h'.d == h.d && h'.sz <= h.sz && i < h'.sz
    requires forall s :: 0 <= s < h'.sz && s != i ==> Val(h', s) == Val(h, s)
    ensures OrderedBut(h', i, Val(h, i))
  {
    forall s | 0 < s < h'.sz && s != i && Parent(h.d, s) != i
      ensures Val(h', Parent(h'.d, s)) <= Val(h', s)
    {
    }
    if i > 0 {
    }
    forall s | 0 < s < h'.sz && Parent(h.d, s) == i
      ensures Val(h, i) <= Val(h', s)
    {
    }
  }

  /** A slot that became no larger is ready to swim. */
  lemma SwimReadyBelow(h: IHeap, i: nat, w: int)
    requires Shaped(h) && OrderedBut(h, i, w) && Val(h, i) <= w
    ensures SwimReady(h, i)
  {
  }

  /** A slot that became no smaller is ready to sink. */
  lemma SinkReadyAbove(h: IHeap, i: nat, w: int)
    requires Shaped(h) && OrderedBut(h, i, w) && w <= Val(h, i)
    ensures SinkReady(h, i)
  {
  }

  /** Sinking and then swimming a slot whose priority changed, with the corrected sink,
      restores the min-heap property. */
  lemma SinkThenSwimRestoresOrder(h: IHeap, n: nat, i: nat, w: int)
    requires MapsInverseUpTo(h, n) && i < h.sz && OrderedBut(h, i, w)
    ensures Ordered(Swim(SinkFixed(h, i), i))
  {
    SinkFixedKeepsMaps(h, n, i);
    if i > 0 && Val(h, i) < Val(h, Parent(h.d, i)) {
      SinkFixedStaysPut(h, i);
      SwimReadyBelow(h, i, w);
      SwimRestoresOrder(h, n, i);
    } else {
      SinkReadyNotRising(h, i, w);
      SinkFixedRestoresOrder(h, n, i);
      SwimOrderedIsNoop(SinkFixed(h, i), i);
    }
  }

  lemma SinkReadyNotRising(h: IHeap, i: nat, w: int)
    requires Shaped(h) && OrderedBut(h, i, w) && !(i > 0 && Val(h, i) < Val(h, Parent(h.d, i)))
    ensures SinkReady(h, i)
  {
  }

  // ---------------------------------------------------------------- the minimum

  /** In an ordered heap every occupied slot is at least as large as the root. */
  lemma {:induction false} RootIsMin(h: IHeap, s: nat)
    requires Shaped(h) && Ordered(h) && s < h.sz
    ensures Val(h, 0) <= Val(h, s)
    decreases s
  {
    if s > 0 {
      RootIsMin(h, Parent(h.d, s));
    }
  }

  /** In an ordered heap the key at the root carries the least priority of all present keys. */
  lemma RootHoldsMinKey(h: IHeap)
    requires MapsInverse(h) && Ordered(h) && h.sz > 0
    ensures h.im[0] in Contents(h)
    ensures forall k :: k in Contents(h) ==> Contents(h)[h.im[0]] <= Contents(h)[k]
  {
    forall k | k in Contents(h)
      ensures Contents(h)[h.im[0]] <= Contents(h)[k]
    {
      RootIsMin(h, h.pm[k]);
    }
  }

  // ---------------------------------------------------------------- counting

  /** No more than N keys: an absent key in range means that a slot is free. */
  lemma AbsentKeyLeavesRoom(h: IHeap, ki: int)
    requires MapsInverse(h) && 0 <= ki < |h.pm| && h.pm[ki] == -1
    ensures h.sz < |h.pm|
  {
    var occupied := set s | 0 <= s < h.sz :: h.im[s];
    OccupiedCard(h, h.sz);
    var others := Below(|h.pm|) - {ki};
    assert occupied <= others;
    SubsetCard(occupied, others);
  }

  lemma {:induction false} OccupiedCard(h: IHeap, m: nat)
    requires MapsInverse(h) && m <= h.sz
    ensures |set s | 0 <= s < m :: h.im[s]| == m
  {
    if m > 0 {
      OccupiedCard(h, m - 1);
      var before := set s | 0 <= s < m - 1 :: h.im[s];
      assert (set s | 0 <= s < m :: h.im[s]) == before + {h.im[m - 1]};
      forall s | 0 <= s < m - 1
        ensures h.im[s] != h.im[m - 1]
      {
        assert h.pm[h.im[s]] == s;
      }
    }
  }

  /** The number of present keys is the number of occupied slots. */
  lemma ContentsSize(h: IHeap)
    requires MapsInverse(h)
    ensures |Contents(h)| == h.sz
  {
    var occupied := set s | 0 <= s < h.sz :: h.im[s];
    OccupiedCard(h, h.sz);
    forall k | k in Contents(h).Keys
      ensures k in occupied
    {
      assert h.im[h.pm[k]] == k;
    }
    forall k | k in occupied
      ensures k in Contents(h).Keys
    {
      var s :| 0 <= s < h.sz && h.im[s] == k;
      assert h.pm[h.im[s]] == s;
    }
    assert Contents(h).Keys == occupied;
  }

  /** The set {0, ..., n - 1}. */
  function Below(n: nat): (r: set<int>)
    ensures forall k :: k in r <==> 0 <= k < n
    ensures |r| == n
  {
    if n == 0 then {} else Below(n - 1) + {n - 1}
  }

  lemma {:induction false} SubsetCard<T>(a: set<T>, b: set<T>)
    requires a <= b
    ensures |a| <= |b|
  {
    if a != {} {
      var x :| x in a;
      SubsetCard(a - {x}, b - {x});
    }
  }

  // ---------------------------------------------------------------- placing and detaching a key

  /** The bookkeeping of an insertion before the swim: ki goes into the first free slot. */
  function Place(h: IHeap, ki: int, v: int): (r: IHeap)
    requires Shaped(h) && 0 <= ki < |h.pm| && h.sz < |h.pm|
    ensures Shaped(r)
  {
    h.(pm := h.pm[ki := h.sz], im := h.im[h.sz := ki], vals := h.vals[ki := Some(v)],
       sz := h.sz + 1)
  }

  /** Placing an absent key in the first free slot keeps the maps inverse and adds the key
      with its priority. */
  lemma PlaceKeepsMaps(h: IHeap, ki: int, v: int)
    requires MapsInverse(h) && 0 <= ki < |h.pm| && ki !in Contents(h)
    ensures h.sz < |h.pm| && MapsInverse(Place(h, ki, v))
    ensures Contents(Place(h, ki, v)) == Contents(h)[ki := v]
  {
    AbsentKeyLeavesRoom(h, ki);
    var h1 := Place(h, ki, v);
    forall k | 0 <= k < |h1.pm| && h1.pm[k] != -1
      ensures 0 <= h1.pm[k] < h1.sz && h1.im[h1.pm[k]] == k
    {
      if k != ki {
        assert h.pm[k] < h.sz;
      }
    }
  }

  /** In an ordered heap, the key just placed in the last slot is the only one that may be
      out of order, which is what swim needs. */
  lemma PlaceSwimReady(h: IHeap, ki: int, v: int)
    requires MapsInverse(h) && 0 <= ki < |h.pm| && ki !in Contents(h) && Ordered(h)
    ensures h.sz < |h.pm| && SwimReady(Place(h, ki, v), h.sz)
  {
    PlaceKeepsMaps(h, ki, v);
    var h1 := Place(h, ki, v);
    forall s | 0 <= s < h.sz
      ensures Val(h1, s) == Val(h, s)
    {
      assert h.pm[h.im[s]] == s;
    }
    forall s | 0 < s < h1.sz && Parent(h.d, s) == h.sz
      ensures false
    {
    }
    forall s | 0 < s < h1.sz && s != h.sz
      ensures Val(h1, Parent(h1.d, s)) <= Val(h1, s)
    {
    }
  }

  /** The first steps of a removal: the slot of ki is exchanged with the last occupied slot,
      and the heap shrinks by one, so that ki sits in the slot just vacated. */
  function Detach(h: IHeap, ki: int): (r: IHeap)
    requires MapsInverse(h) && ki in Contents(h)
    ensures Shaped(r) && r.sz == h.sz - 1 && r.sz < |r.im| && 0 <= h.pm[ki] <= r.sz
    ensures KeysBelow(r, r.sz) && r.im[r.sz] == ki
  {
    Swap(h, h.pm[ki], h.sz - 1).(sz := h.sz - 1)
  }

  /** After Detach the maps are inverse on [0, old sz), and the slot of ki holds what the
      last slot held. */
  lemma DetachSpec(h: IHeap, ki: int)
    requires MapsInverse(h) && ki in Contents(h)
    ensures MapsInverseUpTo(Detach(h, ki), h.sz) && Contents(Detach(h, ki)) == Contents(h)
    ensures forall s :: h.sz <= s < |h.im| ==> Detach(h, ki).im[s] == h.im[s]
  {
    SwapKeepsMaps(h, h.sz, h.pm[ki], h.sz - 1);
  }

  /** After Detach the slot of ki holds the priority the last slot held. */
  lemma DetachVals(h: IHeap, ki: int)
    requires MapsInverse(h) && ki in Contents(h)
    ensures forall s :: 0 <= s < h.sz - 1 ==>
      Val(Detach(h, ki), s) == if s == h.pm[ki] then Val(h, h.sz - 1) else Val(h, s)
  {
    SwapKeepsMaps(h, h.sz, h.pm[ki], h.sz - 1);
  }

  /** When ki already sits in the last slot, the sink that follows Detach does nothing. */
  lemma DetachLastSinkIsNoop(h: IHeap, ki: int)
    requires MapsInverse(h) && ki in Contents(h) && h.pm[ki] == h.sz - 1
    ensures SinkToLeaf(Detach(h, ki), h.pm[ki]) == Detach(h, ki)
    ensures Detach(h, ki) == h.(sz := h.sz - 1)
  {
    var h2 := Detach(h, ki);
    MinChildScanSpec(h2, h.pm[ki]);
    ChildAfter(h.d, h.pm[ki]);
    assert h2.im == h.im;
  }

  /** Removal as a correct heap does it, before the final bookkeeping: Detach, then the
      corrected sink and the swim at the slot ki came from, unless that was the last slot. */
  function DetachRestored(h: IHeap, ki: int): (r: IHeap)
    requires MapsInverse(h) && ki in Contents(h)
    ensures Shaped(r) && r.sz == h.sz - 1 && r.d == h.d && |r.pm| == |h.pm| && r.vals == h.vals
  {
    var i := h.pm[ki];
    var h2 := Detach(h, ki);
    if i < h2.sz then Swim(SinkFixed(h2, i), i) else h2
  }

  lemma DetachRestoredMaps(h: IHeap, ki: int)
    requires MapsInverse(h) && ki in Contents(h)
    ensures var h4 := DetachRestored(h, ki);
      MapsInverseUpTo(h4, h.sz) && h4.im[h.sz - 1] == ki && Contents(h4) == Contents(h) &&
      (forall s :: h.sz <= s < |h.im| ==> h4.im[s] == h.im[s])
  {
    var i := h.pm[ki];
    DetachSpec(h, ki);
    var h2 := Detach(h, ki);
    if i < h2.sz {
      SinkFixedKeepsMaps(h2, h.sz, i);
      SwimKeepsMaps(SinkFixed(h2, i), h.sz, i);
    } else {
      DetachLastSinkIsNoop(h, ki);
    }
  }

  lemma DetachRestoredOrder(h: IHeap, ki: int)
    requires MapsInverse(h) && ki in Contents(h) && Ordered(h)
    ensures Ordered(DetachRestored(h, ki))
  {
    var i := h.pm[ki];
    DetachSpec(h, ki);
    var h2 := Detach(h, ki);
    if i < h2.sz {
      DetachVals(h, ki);
      OrderedButFrom(h, h2, i);
      SinkThenSwimRestoresOrder(h2, h.sz, i, Val(h, i));
    } else {
      DetachLastSinkIsNoop(h, ki);
    }
  }
}
