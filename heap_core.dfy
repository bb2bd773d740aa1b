/**
 * The plain minimum heaps (MinDHeap, DAryMinHeap and MinHeap) keep their elements level by
 * level in a sequence: slot s has parent (s - 1) / d and children s*d + 1 .. s*d + d.  This
 * module gives the operations they share as functions on that sequence, and proves what
 * each of them keeps: the multiset of elements always, the min-heap order where the
 * operation restores it.
 */
module HeapCore {
  import opened Common

  /** The min-heap property: no element is smaller than its parent. */
  predicate Ordered(s: seq<int>, d: nat)
    requires d >= 1
  {
    forall k :: 0 < k < |s| ==> s[Parent(d, k)] <= s[k]
  }

  /** The element at the root, None for an empty heap. */
  function Peek(s: seq<int>): Option<int> {
    if |s| == 0 then None else Some(s[0])
  }

  /** In an ordered heap every element is at least the root. */
  lemma {:induction false} RootIsMin(s: seq<int>, d: nat, k: nat)
    requires d >= 1 && Ordered(s, d) && k < |s|
    ensures s[0] <= s[k]
    decreases k
  {
    if k > 0 {
      RootIsMin(s, d, Parent(d, k));
    }
  }

  /** peek answers None exactly on the empty heap; otherwise an element, the least one
      when the heap is ordered. */
  lemma PeekIsMin(s: seq<int>, d: nat)
    requires d >= 1
    ensures Peek(s).None? <==> |s| == 0
    ensures Peek(s).Some? ==> Peek(s).value in multiset(s)
    ensures Peek(s).Some? && Ordered(s, d) ==> forall k :: 0 <= k < |s| ==> Peek(s).value <= s[k]
  {
    if |s| > 0 && Ordered(s, d) {
      forall k | 0 <= k < |s|
        ensures s[0] <= s[k]
      {
        RootIsMin(s, d, k);
      }
    }
  }

  // ---------------------------------------------------------------- swap

  /** Exchanges the elements of slots i and j. */
  function Swap(s: seq<int>, i: nat, j: nat): (r: seq<int>)
    requires i < |s| && j < |s|
    ensures |r| == |s| && multiset(r) == multiset(s)
    ensures r[i] == s[j] && r[j] == s[i]
    ensures forall k :: 0 <= k < |s| && k != i && k != j ==> r[k] == s[k]
  {
    s[i := s[j]][j := s[i]]
  }

  /** The order of the two slots does not matter. */
  lemma SwapSymmetric(s: seq<int>, i: nat, j: nat)
    requires i < |s| && j < |s|
    ensures Swap(s, i, j) == Swap(s, j, i)
  {
    assert forall k :: 0 <= k < |s| ==> Swap(s, i, j)[k] == Swap(s, j, i)[k];
  }

  // ---------------------------------------------------------------- swim

  /** heapify_up: while the element at slot i is strictly smaller than its parent, exchange
      the two and continue from the parent. */
  function Swim(s: seq<int>, d: nat, i: nat): (r: seq<int>)
    requires d >= 1 && i < |s|
    ensures |r| == |s| && multiset(r) == multiset(s)
    decreases i
  {
    if i > 0 && s[i] < s[Parent(d, i)] then
      Swim(Swap(s, i, Parent(d, i)), d, Parent(d, i))
    else
      s
  }

  /** One round of heapify_up's loop: the slot exchanged with its parent continues from
      there. */
  lemma SwimStep(s: seq<int>, d: nat, i: nat)
    requires d >= 1 && 0 < i < |s| && s[i] < s[Parent(d, i)]
    ensures Swim(s, d, i) == Swim(Swap(s, i, Parent(d, i)), d, Parent(d, i))
  {
  }

  /** What swim needs: the heap is ordered except possibly between slot i and its parent,
      and the parent of i is no larger than the children of i. */
  predicate SwimReady(s: seq<int>, d: nat, i: nat)
    requires d >= 1
  {
    (forall k :: 0 < k < |s| && k != i ==> s[Parent(d, k)] <= s[k]) &&
    (i > 0 ==> forall k :: 0 < k < |s| && Parent(d, k) == i ==> Parent(d, i) < |s| && s[Parent(d, i)] <= s[k])
  }

  /** One round of swim keeps it ready: after slot i is exchanged with its smaller parent,
      the parent's slot is ready to swim. */
  lemma SwimStepReady(s: seq<int>, d: nat, i: nat)
    requires d >= 1 && 0 < i < |s| && SwimReady(s, d, i) && s[i] < s[Parent(d, i)]
    ensures Parent(d, i) < i && SwimReady(Swap(s, i, Parent(d, i)), d, Parent(d, i))
  {
    var p := Parent(d, i);
    var s' := Swap(s, i, p);
    forall k | 0 < k < |s'| && k != p
      ensures s'[Parent(d, k)] <= s'[k]
    {
      var pk := Parent(d, k);
      if k == i {
      } else if pk == i {
        assert s'[pk] == s[p] && s'[k] == s[k];
      } else if pk == p {
        assert s'[pk] == s[i] && s'[k] == s[k];
      } else {
        assert s'[pk] == s[pk] && s'[k] == s[k];
      }
    }
    if p > 0 {
      forall k | 0 < k < |s'| && Parent(d, k) == p
        ensures Parent(d, p) < |s'| && s'[Parent(d, p)] <= s'[k]
      {
        assert s[Parent(d, p)] <= s[p];
        if k != i {
          assert s[p] <= s[k];
        }
      }
    }
  }

  lemma {:induction false} SwimRestoresOrder(s: seq<int>, d: nat, i: nat)
    requires d >= 1 && i < |s| && SwimReady(s, d, i)
    ensures Ordered(Swim(s, d, i), d)
    decreases i
  {
    if i > 0 && s[i] < s[Parent(d, i)] {
      SwimStepReady(s, d, i);
      var p := Parent(d, i);
      SwimRestoresOrder(Swap(s, i, p), d, p);
      assert Swim(s, d, i) == Swim(Swap(s, i, p), d, p);
    } else {
      assert Swim(s, d, i) == s;
    }
  }

  // ---------------------------------------------------------------- insert

  /** insert / add: the element goes into the slot after the last one and swims up. */
  function Insert(s: seq<int>, d: nat, x: int): seq<int>
    requires d >= 1
  {
    Swim(s + [x], d, |s|)
  }

  /** insert adds exactly x, and keeps an ordered heap ordered. */
  lemma InsertSpec(s: seq<int>, d: nat, x: int)
    requires d >= 1
    ensures |Insert(s, d, x)| == |s| + 1
    ensures multiset(Insert(s, d, x)) == multiset(s) + multiset{x}
    ensures Ordered(s, d) ==> Ordered(Insert(s, d, x), d)
  {
    var t := s + [x];
    assert multiset(t) == multiset(s) + multiset{x};
    if Ordered(s, d) {
      forall k | 0 < k < |t| && k != |s|
        ensures t[Parent(d, k)] <= t[k]
      {
      }
      if |s| > 0 {
        forall k | 0 < k < |t| && Parent(d, k) == |s|
          ensures false
        {
        }
      }
      SwimRestoresOrder(t, d, |s|);
    }
  }

  // ---------------------------------------------------------------- scanning children

  /** Scans slots [j, hi) and keeps the first slot that is strictly smaller than the best
      slot so far; best == -1 means that no slot has been kept yet. */
  function Scan(s: seq<int>, j: nat, hi: int, best: int): (r: int)
    requires hi <= |s| && -1 <= best < |s|
    ensures -1 <= r < |s|
    decreases hi - j
  {
    if j >= hi then best
    else Scan(s, j + 1, hi, if best == -1 || s[j] < s[best] then j else best)
  }

  lemma {:induction false} ScanResult(s: seq<int>, j: nat, hi: int, best: int)
    requires hi <= |s| && -1 <= best < j && best < |s|
    ensures var r := Scan(s, j, hi, best);
      (r == best || j <= r < hi) &&
      (r == -1 <==> best == -1 && j >= hi) &&
      (r != -1 ==> forall k :: j <= k < hi ==> s[r] <= s[k]) &&
      (best != -1 ==> s[r] <= s[best]) &&
      (best != -1 && r != best ==> s[r] < s[best]) &&
      (forall k :: j <= k < hi && k < r ==> s[r] < s[k])
    decreases hi - j
  {
    if j < hi {
      var b := if best == -1 || s[j] < s[best] then j else best;
      ScanResult(s, j + 1, hi, b);
    }
  }

  /** min_child as MinDHeap writes it: among the children of slot i, the first one of least
      value, or -1 when slot i has no child.  Slot i takes no part in the comparison. */
  function MinChildScan(s: seq<int>, d: nat, i: nat): int
    requires d >= 1
  {
    Scan(s, FirstChild(d, i), Min(|s|, FirstChild(d, i) + d), -1)
  }

  /** The choice of heapify_down: the first child strictly smaller than slot i and than
      every earlier child, or i itself when no child is smaller than slot i. */
  function MinChildFixed(s: seq<int>, d: nat, i: nat): int
    requires d >= 1 && i < |s|
  {
    Scan(s, FirstChild(d, i), Min(|s|, FirstChild(d, i) + d), i)
  }

  lemma MinChildScanSpec(s: seq<int>, d: nat, i: nat)
    requires d >= 1
    ensures var m := MinChildScan(s, d, i);
      (m == -1 <==> FirstChild(d, i) >= |s|) &&
      (m != -1 ==> 1 <= m < |s| && Parent(d, m) == i && m > i) &&
      (m != -1 ==> forall k :: 0 < k < |s| && Parent(d, k) == i ==> s[m] <= s[k]) &&
      (m != -1 ==> forall k :: 0 < k < m && Parent(d, k) == i ==> s[m] < s[k])
  {
    var f := FirstChild(d, i);
    ScanResult(s, f, Min(|s|, f + d), -1);
    ChildAfter(d, i);
    var m := MinChildScan(s, d, i);
    if m != -1 {
      ChildRange(d, i, m);
      forall k | 0 < k < |s| && Parent(d, k) == i
        ensures s[m] <= s[k]
      {
        ChildRange(d, i, k);
      }
      forall k | 0 < k < m && Parent(d, k) == i
        ensures s[m] < s[k]
      {
        ChildRange(d, i, k);
      }
    }
  }

  lemma MinChildFixedSpec(s: seq<int>, d: nat, i: nat)
    requires d >= 1 && i < |s|
    ensures var m := MinChildFixed(s, d, i);
      (m == i ==> forall k :: 0 < k < |s| && Parent(d, k) == i ==> s[i] <= s[k]) &&
      (m != i ==> 1 <= m < |s| && Parent(d, m) == i && m > i && s[m] < s[i]) &&
      (m != i ==> forall k :: 0 < k < |s| && Parent(d, k) == i ==> s[m] <= s[k]) &&
      (m != i ==> forall k :: 0 < k < m && Parent(d, k) == i ==> s[m] < s[k])
  {
    var f := FirstChild(d, i);
    ScanResult(s, f, Min(|s|, f + d), i);
    ChildAfter(d, i);
    var m := MinChildFixed(s, d, i);
    forall k | 0 < k < |s| && Parent(d, k) == i
      ensures s[m] <= s[k]
    {
      ChildRange(d, i, k);
    }
    if m != i {
      ChildRange(d, i, m);
      forall k | 0 < k < m && Parent(d, k) == i
        ensures s[m] < s[k]
      {
        ChildRange(d, i, k);
      }
    }
  }

  // ---------------------------------------------------------------- sink, as MinDHeap writes it

  /** sink as MinDHeap writes it: exchange slot i with its least child for as long as it has
      a child, whatever their values. */
  function SinkToLeaf(s: seq<int>, d: nat, i: nat): (r: seq<int>)
    requires d >= 1
    ensures |r| == |s| && multiset(r) == multiset(s)
    decreases |s| - i
  {
    var m := MinChildScan(s, d, i);
    MinChildScanSpec(s, d, i);
    if m == -1 then s else SinkToLeaf(Swap(s, i, m), d, m)
  }

  /** One round of sink's loop: the slot exchanged with its least child continues from
      there. */
  lemma SinkToLeafStep(s: seq<int>, d: nat, i: nat)
    requires d >= 1 && MinChildScan(s, d, i) != -1
    ensures i < MinChildScan(s, d, i) < |s|
    ensures SinkToLeaf(s, d, i) == SinkToLeaf(Swap(s, i, MinChildScan(s, d, i)), d, MinChildScan(s, d, i))
  {
    MinChildScanSpec(s, d, i);
  }

  /** The element that starts in slot i ends in a slot without children, and every slot it
      leaves on the way takes a child's value. */
  lemma {:induction false} SinkToLeafEndsAtLeaf(s: seq<int>, d: nat, i: nat)
    requires d >= 1 && i < |s|
    ensures exists k :: i <= k < |s| && FirstChild(d, k) >= |s| && SinkToLeaf(s, d, i)[k] == s[i]
    decreases |s| - i
  {
    var m := MinChildScan(s, d, i);
    MinChildScanSpec(s, d, i);
    if m == -1 {
      assert FirstChild(d, i) >= |s| && SinkToLeaf(s, d, i)[i] == s[i];
    } else {
      SinkToLeafEndsAtLeaf(Swap(s, i, m), d, m);
      var k :| m <= k < |s| && FirstChild(d, k) >= |s| && SinkToLeaf(Swap(s, i, m), d, m)[k] == Swap(s, i, m)[m];
      assert i <= k && SinkToLeaf(s, d, i)[k] == s[i];
    }
  }

  // ---------------------------------------------------------------- sink, as heapify_down does it

  /** heapify_down: exchange slot i with its least child only while that child is strictly
      smaller than slot i. */
  function SinkFixed(s: seq<int>, d: nat, i: nat): (r: seq<int>)
    requires d >= 1 && i < |s|
    ensures |r| == |s| && multiset(r) == multiset(s)
    ensures forall k :: 0 <= k < i ==> r[k] == s[k]
    decreases |s| - i
  {
    var m := MinChildFixed(s, d, i);
    MinChildFixedSpec(s, d, i);
    if m == i then s else SinkFixed(Swap(s, i, m), d, m)
  }

  /** What sink needs: the heap is ordered except possibly between slot i and its children,
      and the parent of i is no larger than the children of i. */
  predicate SinkReady(s: seq<int>, d: nat, i: nat)
    requires d >= 1
  {
    (forall k :: 0 < k < |s| && Parent(d, k) != i ==> s[Parent(d, k)] <= s[k]) &&
    (i > 0 ==> forall k :: 0 < k < |s| && Parent(d, k) == i ==> Parent(d, i) < |s| && s[Parent(d, i)] <= s[k])
  }

  lemma {:induction false} SinkFixedRestoresOrder(s: seq<int>, d: nat, i: nat)
    requires d >= 1 && i < |s| && SinkReady(s, d, i)
    ensures Ordered(SinkFixed(s, d, i), d)
    decreases |s| - i
  {
    var m := MinChildFixed(s, d, i);
    MinChildFixedSpec(s, d, i);
    if m != i {
      var s' := Swap(s, i, m);
      forall k | 0 < k < |s'| && Parent(d, k) != m
        ensures s'[Parent(d, k)] <= s'[k]
      {
        var pk := Parent(d, k);
        if k == m {
        } else if pk == i {
        } else if k == i {
          assert s[Parent(d, i)] <= s[m];
        } else {
          assert k != i && k != m && pk != i && pk != m;
        }
      }
      forall k | 0 < k < |s'| && Parent(d, k) == m
        ensures Parent(d, m) < |s'| && s'[Parent(d, m)] <= s'[k]
      {
        ChildAfter(d, m);
        ChildRange(d, m, k);
        assert k > m;
      }
      SinkFixedRestoresOrder(s', d, m);
    }
  }

  // ---------------------------------------------------------------- removing the root

  /** The heap once the root has been overwritten with the last element and the last slot
      given up. */
  function LastToRoot(s: seq<int>): (r: seq<int>)
    requires |s| > 0
    ensures |r| == |s| - 1
    ensures |r| > 0 ==> r[0] == s[|s| - 1]
    ensures forall k :: 0 < k < |r| ==> r[k] == s[k]
    ensures multiset(r) == multiset(s) - multiset{s[0]}
  {
    var r := s[0 := s[|s| - 1]][..|s| - 1];
    assert s == [s[0]] + s[1..];
    assert |s| > 1 ==> s[1..] == s[1..|s| - 1] + [s[|s| - 1]] && r == [s[|s| - 1]] + s[1..|s| - 1];
    r
  }

  /** An ordered heap whose root is overwritten with its last element is ready to sink. */
  lemma LastToRootSinkReady(s: seq<int>, d: nat)
    requires d >= 1 && |s| > 1 && Ordered(s, d)
    ensures SinkReady(LastToRoot(s), d, 0)
  {
    var r := LastToRoot(s);
    forall k | 0 < k < |r| && Parent(d, k) != 0
      ensures r[Parent(d, k)] <= r[k]
    {
    }
  }

  /** extract_min of DAryMinHeap and MinHeap: None on the empty heap; otherwise the root,
      and the last element moved to the root and sunk with heapify_down. */
  function ExtractMin(s: seq<int>, d: nat): (Option<int>, seq<int>)
    requires d >= 1
  {
    if |s| == 0 then (None, s)
    else if |s| == 1 then (Some(s[0]), [])
    else (Some(s[0]), SinkFixed(LastToRoot(s), d, 0))
  }

  /** extract_min returns the least element and removes exactly one copy of it, and keeps
      an ordered heap ordered. */
  lemma ExtractMinSpec(s: seq<int>, d: nat)
    requires d >= 1
    ensures var (r, s') := ExtractMin(s, d);
      (r.None? <==> |s| == 0) &&
      (r.None? ==> s' == s) &&
      (r.Some? ==> r == Peek(s) && |s'| == |s| - 1 && multiset(s') == multiset(s) - multiset{r.value}) &&
      (r.Some? && Ordered(s, d) ==> forall k :: 0 <= k < |s| ==> r.value <= s[k]) &&
      (Ordered(s, d) ==> Ordered(s', d))
  {
    PeekIsMin(s, d);
    if |s| == 1 {
      assert s == [s[0]];
    } else if |s| > 1 && Ordered(s, d) {
      LastToRootSinkReady(s, d);
      SinkFixedRestoresOrder(LastToRoot(s), d, 0);
    }
  }

  /** poll of MinDHeap: None on the empty heap; otherwise the root, and the last element
      moved to the root and driven down to a leaf. */
  function PollToLeaf(s: seq<int>, d: nat): (Option<int>, seq<int>)
    requires d >= 1
  {
    if |s| == 0 then (None, s) else (Some(s[0]), SinkToLeaf(LastToRoot(s), d, 0))
  }

  /** poll returns the root and removes exactly one copy of it; on an ordered heap the root
      is the least element.  Order is not kept (see the findings). */
  lemma PollToLeafSpec(s: seq<int>, d: nat)
    requires d >= 1
    ensures var (r, s') := PollToLeaf(s, d);
      (r.None? <==> |s| == 0) &&
      (r.None? ==> s' == s) &&
      (r.Some? ==> r == Peek(s) && |s'| == |s| - 1 && multiset(s') == multiset(s) - multiset{r.value}) &&
      (r.Some? && Ordered(s, d) ==> forall k :: 0 <= k < |s| ==> r.value <= s[k])
  {
    PeekIsMin(s, d);
  }
}
