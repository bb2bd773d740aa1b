/**
 * MinDHeap: a D-ary minimum heap of at most n elements in a fixed array, method by method
 * as the source writes it.  Slots [0, sz) hold the elements and the later slots None; the
 * parent and child tables are computed once by the constructor.  Each method is proved to
 * do to the elements what the matching function of HeapCore does.
 */
module DHeap {
  import opened Common
  import HeapCore

  /** The parent and child tables of __init__: parent[i] = (i - 1) // d, which is -1 for
      the root, and child[i] = i * d + 1. */
  method BuildTables(d: nat, n: nat) returns (child: array<int>, parent: array<int>)
    requires d >= 1
    ensures fresh(child) && fresh(parent) && child.Length == n && parent.Length == n
    ensures forall i :: 0 <= i < n ==> child[i] == FirstChild(d, i)
    ensures n > 0 ==> parent[0] == -1
    ensures forall i :: 0 < i < n ==> parent[i] == Parent(d, i)
  {
    child := new int[n](_ => 0);
    parent := new int[n](_ => 0);
    for i := 0 to n
      invariant forall k :: 0 <= k < i ==> child[k] == FirstChild(d, k)
      invariant i > 0 ==> parent[0] == -1
      invariant forall k :: 0 < k < i ==> parent[k] == Parent(d, k)
    {
      // floor division: d > 0, so Python's // and Dafny's / agree
      parent[i] := (i - 1) / d;
      child[i] := i * d + 1;
    }
  }

  class MinDHeap {
    const d: nat
    const n: nat
    var heap: array<Option<int>>
    /** child[i] = i * d + 1 */
    const child: array<int>
    /** parent[i] = (i - 1) // d */
    const parent: array<int>
    var sz: nat
    /** The elements, slot by slot. */
    ghost var elems: seq<int>

    /** The array and the tables are n long, the tables hold what the constructor put
        there, and at most n slots are occupied. */
    ghost predicate Tables()
      reads this, child, parent
    {
      child != parent && d >= 2 && n >= d && sz <= n &&
      heap.Length == n && child.Length == n && parent.Length == n &&
      (forall i :: 0 <= i < n ==> child[i] == FirstChild(d, i)) &&
      parent[0] == -1 && (forall i :: 0 < i < n ==> parent[i] == Parent(d, i))
    }

    /** The first |elems| slots hold the elements, in order. */
    ghost predicate Mirrors()
      reads this, heap
    {
      |elems| <= heap.Length && forall k :: 0 <= k < |elems| ==> heap[k] == Some(elems[k])
    }

    /** Slots [0, sz) hold the elements and the later slots None. */
    ghost predicate Valid()
      reads this, heap, child, parent
    {
      Tables() && Mirrors() && |elems| == sz && forall k :: sz <= k < n ==> heap[k] == None
    }

    /** __init__: d = max(2, degree) and n = max(d, max_nodes), nothing present. */
    constructor (degree: int, maxNodes: int)
      ensures Valid() && elems == [] && fresh(heap)
      ensures d == Max(2, degree) && n == Max(d, maxNodes)
    {
      var dd := Max(2, degree);
      var nn := Max(dd, maxNodes);
      d, n := dd, nn;
      heap := new Option<int>[nn](_ => None);
      var childTable, parentTable := BuildTables(dd, nn);
      child, parent := childTable, parentTable;
      sz := 0;
      elems := [];
    }

    method Size() returns (r: nat)
      requires Valid()
      ensures r == |elems|
    {
      r := sz;
    }

    method IsEmpty() returns (r: bool)
      requires Valid()
      ensures r <==> elems == []
    {
      r := sz == 0;
    }

    /** clear: a fresh row of None and no element. */
    method Clear()
      requires Valid()
      modifies this
      ensures Valid() && elems == [] && fresh(heap)
    {
      heap := new Option<int>[n](_ => None);
      sz := 0;
      elems := [];
    }

    method Peek() returns (r: Option<int>)
      requires Valid()
      ensures r == HeapCore.Peek(elems)
    {
      if sz == 0 {
        return None;
      }
      return heap[0];
    }

    /** poll: the root, once the last element has taken its slot and sunk to a leaf. */
    method Poll() returns (r: Option<int>)
      requires Valid()
      modifies this, heap
      ensures Valid() && heap == old(heap)
      ensures (r, elems) == HeapCore.PollToLeaf(old(elems), d)
    {
      if sz == 0 {
        return None;
      }
      var root := heap[0];
      LastToRoot();
      Sink(0);
      r := root;
    }

    /** The first steps of poll: the heap shrinks by one, the last element takes the root's
        slot and its own slot is cleared. */
    method LastToRoot()
      requires Valid() && sz > 0
      modifies this, heap
      ensures Valid() && heap == old(heap) && sz == old(sz) - 1
      ensures elems == HeapCore.LastToRoot(old(elems))
    {
      ghost var e, a := elems, heap[..];
      sz := sz - 1;
      heap[0] := heap[sz];
      heap[sz] := None;
      elems := HeapCore.LastToRoot(e);
      assert forall k :: 0 < k < sz ==> heap[k] == a[k] == Some(e[k]) == Some(elems[k]);
      assert sz > 0 ==> heap[0] == a[sz] == Some(e[sz]) == Some(elems[0]);
      assert forall k :: sz < k < n ==> heap[k] == a[k] == None;
    }

    /** add: None raises ValueError; a full heap, whose next slot does not exist, raises
        IndexError; otherwise the element takes slot sz and swims up. */
    method Add(elem: Option<int>) returns (r: Result<()>)
      requires Valid()
      modifies this, heap
      ensures Valid() && heap == old(heap)
      ensures elem.None? ==> r == Err(ValueError) && elems == old(elems)
      ensures elem.Some? && old(sz) == n ==> r == Err(IndexError) && elems == old(elems)
      ensures elem.Some? && old(sz) < n ==>
        r == Ok(()) && elems == HeapCore.Insert(old(elems), d, elem.value)
    {
      if elem.None? {
        return Err(ValueError);
      }
      if sz >= heap.Length {
        return Err(IndexError);
      }
      heap[sz] := elem;
      elems := elems + [elem.value];
      Swim(sz);
      sz := sz + 1;
      r := Ok(());
    }

    /** sink as written: exchange slot i with its least child until it has none. */
    method Sink(i: nat)
      requires Tables() && Mirrors() && |elems| == sz && i < n
      modifies this, heap
      ensures heap == old(heap) && sz == old(sz) && Tables() && Mirrors()
      ensures elems == HeapCore.SinkToLeaf(old(elems), d, i)
      ensures forall k :: sz <= k < heap.Length ==> heap[k] == old(heap[k])
    {
      var cur := i;
      while true
        invariant heap == old(heap) && sz == old(sz) && Tables() && Mirrors() && |elems| == sz
        invariant cur < n
        invariant HeapCore.SinkToLeaf(elems, d, cur) == HeapCore.SinkToLeaf(old(elems), d, i)
        invariant forall k :: sz <= k < heap.Length ==> heap[k] == old(heap[k])
        decreases sz - cur
      {
        var j := MinChild(cur);
        if j == -1 {
          break;
        }
        HeapCore.SinkToLeafStep(elems, d, cur);
        Swap(cur, j);
        cur := j;
      }
    }

    /** swim: while slot i is strictly smaller than its parent, exchange the two. */
    method Swim(i: nat)
      requires Tables() && Mirrors() && |elems| == i + 1
      modifies this, heap
      ensures heap == old(heap) && sz == old(sz) && Tables() && Mirrors()
      ensures elems == HeapCore.Swim(old(elems), d, i)
      ensures forall k :: i < k < heap.Length ==> heap[k] == old(heap[k])
    {
      var cur: nat := i;
      while cur > 0
        invariant heap == old(heap) && sz == old(sz) && Tables() && Mirrors() && |elems| == i + 1
        invariant cur <= i
        invariant HeapCore.Swim(elems, d, cur) == HeapCore.Swim(old(elems), d, i)
        invariant forall k :: i < k < heap.Length ==> heap[k] == old(heap[k])
        decreases cur
      {
        var p := parent[cur];
        var less := Less(cur, p);
        if !less {
          break;
        }
        HeapCore.SwimStep(elems, d, cur);
        Swap(cur, p);
        cur := p;
      }
    }

    /** min_child: the first child of slot i of least value, or -1 when i has no child. */
    method MinChild(i: nat) returns (m: int)
      requires Tables() && Mirrors() && |elems| == sz && i < n
      ensures m == HeapCore.MinChildScan(elems, d, i)
    {
      m := -1;
      var from := child[i];
      var hi := Min(sz, from + d);
      var j := from;
      while j < hi
        invariant from <= j && (j <= hi || j == from)
        invariant m == -1 || from <= m < j
        invariant HeapCore.Scan(elems, j, hi, m) == HeapCore.Scan(elems, from, hi, -1)
      {
        if j < sz {
          var smaller := false;
          if m != -1 {
            smaller := Less(j, m);
          }
          if m == -1 || smaller {
            m := j;
          }
        }
        j := j + 1;
      }
    }

    /** less: heap[i].compare_to(heap[j]) < 0, with compare_to the difference of values. */
    method Less(i: nat, j: nat) returns (r: bool)
      requires Mirrors() && i < |elems| && j < |elems|
      ensures r <==> elems[i] < elems[j]
    {
      r := heap[i].value - heap[j].value < 0;
    }

    /** swap: exchange the elements of slots i and j. */
    method Swap(i: nat, j: nat)
      requires Mirrors() && i < |elems| && j < |elems|
      modifies this, heap
      ensures heap == old(heap) && sz == old(sz) && Mirrors()
      ensures elems == HeapCore.Swap(old(elems), i, j)
      ensures forall k :: |elems| <= k < heap.Length ==> heap[k] == old(heap[k])
    {
      heap[i], heap[j] := heap[j], heap[i];
      elems := HeapCore.Swap(elems, i, j);
    }
  }
}
