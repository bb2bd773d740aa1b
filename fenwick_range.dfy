/**
 * FenwickRange: the Fenwick tree with range queries and point updates.  Positions run
 * from 1 to N - 1; the ghost point values vals[1..N-1] are what the tree represents.
 */
module FenwickRange {
  import opened Common
  import opened FenwickCore

  /** The constructor's argument: a size, or a list of initial values. */
  datatype SizeOrValues = Size(sz: nat) | Values(values: seq<int>)

  class FenwickTreeRangeQueryPointUpdate {
    /** one more than the number of positions */
    const n: nat
    const tree: array<int>
    /** the point values; vals[0] is unused */
    ghost var vals: seq<int>

    ghost predicate Valid()
      reads this, tree
    {
      n >= 1 && Represents(tree[..], vals, n - 1)
    }

    /** The sum of the point values at positions 1 to i, 0 for i <= 0. */
    ghost function Prefix(i: int): int
      reads this
      requires |vals| == n && i < n
    {
      if i <= 0 then 0 else Sum(vals, 1, i + 1)
    }

    /** __init__: from a size, N - 1 zero positions; from a list, one position per value,
        holding it. */
    constructor (init: SizeOrValues)
      ensures Valid() && fresh(tree)
      ensures init.Size? ==> n == init.sz + 1 && vals == seq(n, _ => 0)
      ensures init.Values? ==> n == |init.values| + 1 && vals == [0] + init.values
    {
      var len := if init.Size? then init.sz else |init.values|;
      n := len + 1;
      tree := new int[len + 1](_ => 0);
      vals := seq(len + 1, _ => 0);
      new;
      ZeroRepresents(tree[..], vals, len);
      if init.Values? {
        AddAll(init.values);
      }
    }

    /** The constructor's loop over a list: add(i + 1, values[i]) for each i. */
    method AddAll(values: seq<int>)
      requires Valid() && n == |values| + 1 && vals == seq(n, _ => 0)
      modifies this, tree
      ensures Valid() && vals == [0] + values
    {
      for i := 0 to |values|
        invariant Valid() && |vals| == n && vals[0] == 0
        invariant forall k :: 1 <= k <= i ==> vals[k] == values[k - 1]
        invariant forall k :: i < k < n ==> vals[k] == 0
      {
        Add(i + 1, values[i]);
      }
      assert vals == [0] + values by {
        assert forall k :: 0 <= k < n ==> vals[k] == ([0] + values)[k];
      }
    }

    /** prefix_sum: the sum of the point values at positions 1 to i; 0 for i <= 0,
        IndexError for i >= N. */
    method PrefixSum(i: int) returns (r: Result<int>)
      requires Valid()
      ensures i >= n <==> r.Err?
      ensures r.Err? ==> r.error == IndexError
      ensures r.Ok? ==> r.value == Prefix(i)
    {
      if i >= n {
        return Err(IndexError);
      }
      var sum := 0;
      var k := i;
      while k > 0
        invariant k <= i && sum + Prefix(k) == Prefix(i)
        decreases k
      {
        QueryStep(tree[..], vals, n - 1, k);
        sum := sum + tree[k];
        k := k - LowBit(k);
      }
      return Ok(sum);
    }

    /** range_sum: ValueError when right < left; IndexError when right >= N; otherwise
        the sum of the point values at positions max(left, 1) to right. */
    method RangeSum(left: int, right: int) returns (r: Result<int>)
      requires Valid()
      ensures r.Err? <==> right < left || right >= n
      ensures right < left ==> r == Err(ValueError)
      ensures left <= right && right >= n ==> r == Err(IndexError)
      ensures left <= right < n ==> r == Ok(Prefix(right) - Prefix(left - 1))
      ensures 1 <= left <= right < n ==> r == Ok(Sum(vals, left, right + 1))
    {
      if right < left {
        return Err(ValueError);
      }
      var hi := PrefixSum(right);
      if hi.Err? {
        return hi;
      }
      var lo := PrefixSum(left - 1);
      if 1 <= left {
        SumSplit(vals, 1, left, right + 1);
      }
      return Ok(hi.value - lo.value);
    }

    /** get: the point value at position i (0 for i <= 0); IndexError for i >= N. */
    method Get(i: int) returns (r: Result<int>)
      requires Valid()
      ensures i >= n <==> r.Err?
      ensures r.Err? ==> r.error == IndexError
      ensures r.Ok? ==> r.value == if i <= 0 then 0 else vals[i]
    {
      r := RangeSum(i, i);
    }

    /** add: v is added at position i (1-based); a position past N - 1 changes nothing. */
    method Add(i: nat, v: int)
      requires Valid() && i >= 1
      modifies this, tree
      ensures Valid()
      ensures vals == if i < n then old(vals)[i := old(vals)[i] + v] else old(vals)
    {
      var k := i;
      while k < n
        invariant k >= 1 && InChain(i, k)
        invariant forall j :: 1 <= j < n ==>
          tree[j] == old(tree[j]) + (if InChain(i, j) && j < k then v else 0)
        invariant tree[0] == old(tree[0]) && vals == old(vals)
        decreases n - k
      {
        forall j | 1 <= j < n && InChain(i, j) && k < j
          ensures Next(k) <= j
        {
          NextOnChain(i, k, j);
        }
        ChainExtend(i, k);
        tree[k] := tree[k] + v;
        k := k + LowBit(k);
      }
      if i < n {
        UpdateRepresents(old(tree[..]), vals, n - 1, i, v, tree[..]);
        vals := vals[i := vals[i] + v];
      } else {
        assert tree[..] == old(tree[..]);
      }
    }

    /** set: the point value at position i becomes v, every other stays; IndexError,
        changing nothing, for i >= N. */
    method Set(i: nat, v: int) returns (r: Result<()>)
      requires Valid() && i >= 1
      modifies this, tree
      ensures Valid()
      ensures i >= n <==> r.Err?
      ensures r.Err? ==> r.error == IndexError && vals == old(vals)
      ensures r.Ok? ==> vals == old(vals)[i := v]
    {
      var current := Get(i);
      if current.Err? {
        return Err(IndexError);
      }
      Add(i, v - current.value);
      return Ok(());
    }
  }

  /** A tree of zeros represents zero point values. */
  lemma ZeroRepresents(tree: seq<int>, vals: seq<int>, len: nat)
    requires tree == seq(len + 1, _ => 0) && vals == seq(len + 1, _ => 0)
    ensures Represents(tree, vals, len)
  {
    forall j | 1 <= j <= len
      ensures tree[j] == Sum(vals, Lo(j) + 1, j + 1)
    {
      ZeroSum(vals, Lo(j) + 1, j + 1);
    }
  }

  /** A sum over zeros is 0. */
  lemma {:induction false} ZeroSum(s: seq<int>, a: nat, b: nat)
    requires a <= b <= |s| && forall k :: 0 <= k < |s| ==> s[k] == 0
    ensures Sum(s, a, b) == 0
    decreases b - a
  {
    if a < b {
      ZeroSum(s, a, b - 1);
    }
  }

  /** The sums the example reads from its point values. */
  lemma ExampleSums(v: seq<int>)
    requires v == [0, 5, 3, 7, 6, 0, 0, 0, 0, 0, 0]
    ensures Sum(v, 1, 4) == 15
  {
    assert Sum(v, 1, 2) == 5;
  }

  /** Slots 1 to 4 of the tree for the example's final point values. */
  lemma ExampleTreeLow(t: seq<int>, v: seq<int>)
    requires Represents(t, v, 10) && v == [0, 5, 3, 10, 6, 0, 0, 0, 0, 0, 0]
    ensures t[1] == 5 && t[2] == 8 && t[3] == 10 && t[4] == 24
  {
    assert LowBit(1) == 1 && LowBit(2) == 2 && LowBit(3) == 1 && LowBit(4) == 4;
    assert Sum(v, 1, 3) == 8;
  }

  /** Slots 5 to 10 of the tree for the example's final point values: slot 8 covers
      positions 1 to 8 and so holds 24, like slot 4. */
  lemma ExampleTreeHigh(t: seq<int>, v: seq<int>)
    requires Represents(t, v, 10) && v == [0, 5, 3, 10, 6, 0, 0, 0, 0, 0, 0]
    ensures t[5] == 0 && t[6] == 0 && t[7] == 0 && t[8] == 24 && t[9] == 0 && t[10] == 0
  {
    assert LowBit(5) == 1 && LowBit(6) == 2 && LowBit(7) == 1 && LowBit(8) == 8;
    assert LowBit(9) == 1 && LowBit(10) == 2;
    assert Sum(v, 1, 5) == 24;
    assert Sum(v, 5, 9) == 0;
    SumSplit(v, 1, 5, 9);
  }

  /** The tree that represents the example's final point values. */
  lemma ExampleTree(t: seq<int>, v: seq<int>)
    requires Represents(t, v, 10) && v == [0, 5, 3, 10, 6, 0, 0, 0, 0, 0, 0]
    ensures t[1..] == [5, 8, 10, 24, 0, 0, 0, 24, 0, 0]
  {
    ExampleTreeLow(t, v);
    ExampleTreeHigh(t, v);
  }

  /** The example run: ten zero positions; 5, 3, 7 and 6 added at 1 to 4; the range 1 to
      3 sums to 15 and position 3 holds 7; after position 3 is set to 10 the tree's slots
      1 to 10 are 5, 8, 10, 24, 0, 0, 0, 24, 0, 0. */
  method FenwickRangeExample() returns (rangeSum: Result<int>, value3: Result<int>, slots: seq<int>)
    ensures rangeSum == Ok(15) && value3 == Ok(7)
    ensures slots == [5, 8, 10, 24, 0, 0, 0, 24, 0, 0]
  {
    var ft := new FenwickTreeRangeQueryPointUpdate(Values(seq(10, _ => 0)));
    ft.Add(1, 5);
    ft.Add(2, 3);
    ft.Add(3, 7);
    ft.Add(4, 6);
    assert ft.vals == [0, 5, 3, 7, 6, 0, 0, 0, 0, 0, 0];
    ExampleSums(ft.vals);
    rangeSum := ft.RangeSum(1, 3);
    value3 := ft.Get(3);
    var _ := ft.Set(3, 10);
    ExampleTree(ft.tree[..], ft.vals);
    slots := ft.tree[1..];
  }
}
