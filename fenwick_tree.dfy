/**
 * FenwickTree: point updates and prefix queries over positions 1 to size.  The model
 * keeps, as ghost state, the point values the updates have added up (vals[k] for
 * position k), and proves the tree represents them.
 */
module FenwickTree {
  import opened Common
  import opened FenwickCore

  class FenwickTree {
    const size: nat
    /** slots 0 to size; slot 0 is never used */
    const tree: array<int>
    /** the point values; vals[0] is unused */
    ghost var vals: seq<int>

    ghost predicate Valid()
      reads this, tree
    {
      Represents(tree[..], vals, size)
    }

    /** The sum of the point values at positions 1 to i. */
    ghost function Prefix(i: nat): int
      reads this
      requires |vals| == size + 1 && i <= size
    {
      Sum(vals, 1, i + 1)
    }

    /** __init__ for size >= 0: size + 1 zero slots, every point value 0. */
    constructor (size: nat)
      ensures Valid() && fresh(tree) && this.size == size && vals == seq(size + 1, _ => 0)
    {
      this.size := size;
      tree := new int[size + 1](_ => 0);
      vals := seq(size + 1, _ => 0);
      new;
      forall j | 1 <= j <= size
        ensures tree[..][j] == Sum(vals, Lo(j) + 1, j + 1)
      {
        ZeroSum(vals, Lo(j) + 1, j + 1);
      }
    }

    /** update: delta is added at position index (1-based); a position past size
        changes nothing. */
    method Update(index: nat, delta: int)
      requires Valid() && index >= 1
      modifies this, tree
      ensures Valid()
      ensures vals == if index <= size then old(vals)[index := old(vals)[index] + delta]
                      else old(vals)
    {
      var i := index;
      while i <= size
        invariant i >= 1 && InChain(index, i)
        invariant forall j :: 1 <= j <= size ==>
          tree[j] == old(tree[j]) + (if InChain(index, j) && j < i then delta else 0)
        invariant tree[0] == old(tree[0]) && vals == old(vals)
        decreases size - i
      {
        forall j | 1 <= j <= size && InChain(index, j) && i < j
          ensures Next(i) <= j
        {
          NextOnChain(index, i, j);
        }
        ChainExtend(index, i);
        tree[i] := tree[i] + delta;
        i := i + LowBit(i);
      }
      if index <= size {
        UpdateRepresents(old(tree[..]), vals, size, index, delta, tree[..]);
        vals := vals[index := vals[index] + delta];
      } else {
        assert tree[..] == old(tree[..]);
      }
    }

    /** query: the sum of the point values at positions 1 to index; 0 for index <= 0,
        IndexError for an index past size. */
    method Query(index: int) returns (r: Result<int>)
      requires Valid()
      ensures index > size <==> r.Err?
      ensures r.Err? ==> r.error == IndexError
      ensures r.Ok? ==> r.value == if index <= 0 then 0 else Prefix(index)
    {
      if index > size {
        return Err(IndexError);
      }
      var sum := 0;
      var i := index;
      while i > 0
        invariant i <= size
        invariant index > 0 ==> 0 <= i && sum + Prefix(i) == Prefix(index)
        invariant index <= 0 ==> sum == 0
        decreases i
      {
        QueryStep(tree[..], vals, size, i);
        sum := sum + tree[i];
        i := i - LowBit(i);
      }
      return Ok(sum);
    }
  }

  /** A sum over zeros is 0. */
  lemma {:induction false} ZeroSum(s: seq<int>, a: nat, b: nat)
    requires a <= b <= |s| && forall k :: 0 <= k < |s| ==> s[k] == 0
    ensures Sum(s, a, b) == 0
    decreases b - a
  {
    if a < b {
      ZeroSum(s, a, b - 1);
    }
  }

  /** The prefix sums of the example's point values. */
  lemma ExampleSums(v: seq<int>)
    requires v == [0, 5, 0, 2, 0, 0, 0, 7, 0, 0, 0]
    ensures Sum(v, 1, 4) == 7 && Sum(v, 1, 8) == 14 && Sum(v, 1, 11) == 14
  {
    assert Sum(v, 1, 2) == 5;
    assert Sum(v, 1, 4) == 7;
    assert Sum(v, 1, 6) == 7;
    assert Sum(v, 1, 8) == 14;
    assert Sum(v, 1, 10) == 14;
  }

  /** The example run: 5 at 1, 2 at 3 and 7 at 7 in a tree of ten; the prefix sums up to
      3, 7 and 10 are 7, 14 and 14. */
  method FenwickTreeExample() returns (q3: Result<int>, q7: Result<int>, q10: Result<int>)
    ensures q3 == Ok(7) && q7 == Ok(14) && q10 == Ok(14)
  {
    var ft := new FenwickTree(10);
    ft.Update(1, 5);
    ft.Update(3, 2);
    ft.Update(7, 7);
    ExampleSums(ft.vals);
    q3 := ft.Query(3);
    q7 := ft.Query(7);
    q10 := ft.Query(10);
  }
}
