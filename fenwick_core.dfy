/**
 * FenwickCore: the arithmetic behind a Fenwick (binary indexed) tree, shared by the two
 * Fenwick classes.  Slot j >= 1 of the tree holds the sum of the point values in
 * (j - lowbit(j), j].  An update at p walks p, p + lowbit(p), ... upward; a prefix query
 * at i walks i, i - lowbit(i), ... down to 0.
 */
module FenwickCore {

  /** i & -i for i >= 1: the largest power of two dividing i (LowBitSpec). */
  function LowBit(i: nat): (r: nat)
    requires i >= 1
    ensures 1 <= r <= i
  {
    if i % 2 == 1 then 1 else 2 * LowBit(i / 2)
  }

  /** n is 1, 2, 4, 8, ... */
  predicate IsPow2(n: nat)
    decreases n
  {
    n == 1 || (n >= 2 && n % 2 == 0 && IsPow2(n / 2))
  }

  /** i with every factor 2 divided out. */
  function OddPart(i: nat): (r: nat)
    requires i >= 1
    ensures r >= 1 && r % 2 == 1
  {
    if i % 2 == 1 then i else OddPart(i / 2)
  }

  /** LowBit(i) is the largest power of two dividing i: i is that power of two times an
      odd number. */
  lemma {:induction false} LowBitSpec(i: nat)
    requires i >= 1
    ensures IsPow2(LowBit(i)) && i == LowBit(i) * OddPart(i)
  {
    if i % 2 == 0 {
      LowBitSpec(i / 2);
      var h, o := LowBit(i / 2), OddPart(i / 2);
      assert i == 2 * (h * o);
      assert 2 * (h * o) == (2 * h) * o;
    }
  }

  /** The slot below the range of slot i: i with its lowest set bit cleared. */
  function Lo(i: nat): (r: nat)
    requires i >= 1
    ensures r < i
  {
    i - LowBit(i)
  }

  /** The slot an update moves to after i: i with its lowest set bit added. */
  function Next(i: nat): (r: nat)
    requires i >= 1
    ensures r > i
  {
    i + LowBit(i)
  }

  /** Slot j's range (Lo(j), j] contains position p. */
  predicate Covers(j: nat, p: nat)
    requires j >= 1
  {
    Lo(j) < p <= j
  }

  /** j is on the update path from p: p, Next(p), Next(Next(p)), ... */
  predicate InChain(p: nat, j: nat)
    requires p >= 1
    decreases j - p
  {
    p == j || (p < j && InChain(Next(p), j))
  }

  /** The sum of s over [a, b). */
  function Sum(s: seq<int>, a: nat, b: nat): int
    requires a <= b <= |s|
    decreases b - a
  {
    if a == b then 0 else Sum(s, a, b - 1) + s[b - 1]
  }

  /** Sums over adjacent ranges add up. */
  lemma {:induction false} SumSplit(s: seq<int>, a: nat, m: nat, b: nat)
    requires a <= m <= b <= |s|
    ensures Sum(s, a, b) == Sum(s, a, m) + Sum(s, m, b)
    decreases b - m
  {
    if m < b {
      SumSplit(s, a, m, b - 1);
    }
  }

  /** Adding d at position p adds d to every sum whose range holds p. */
  lemma {:induction false} SumUpdate(s: seq<int>, p: nat, d: int, a: nat, b: nat)
    requires p < |s| && a <= b <= |s|
    ensures Sum(s[p := s[p] + d], a, b) == Sum(s, a, b) + (if a <= p < b then d else 0)
    decreases b - a
  {
    if a < b {
      SumUpdate(s, p, d, a, b - 1);
    }
  }

  // ---------------------------------------------------------------- the update path

  /** Doubling doubles the lowest set bit. */
  lemma LowBitDouble(x: nat)
    requires x >= 1
    ensures LowBit(2 * x) == 2 * LowBit(x)
  {
    assert (2 * x) % 2 == 0 && (2 * x) / 2 == x;
  }

  /** The update path from an even slot stays on even slots. */
  lemma {:induction false} EvenChain(p: nat, j: nat)
    requires p >= 1 && p % 2 == 0 && InChain(p, j)
    ensures j % 2 == 0
    decreases j - p
  {
    if p != j {
      LowBitDouble(p / 2);
      assert Next(p) == 2 * Next(p / 2);
      EvenChain(Next(p), j);
    }
  }

  /** The update path of 2x is the update path of x, doubled. */
  lemma {:induction false} ChainDouble(x: nat, y: nat)
    requires x >= 1
    ensures InChain(2 * x, 2 * y) == InChain(x, y)
    decreases y - x
  {
    LowBitDouble(x);
    assert Next(2 * x) == 2 * Next(x);
    if x < y {
      ChainDouble(Next(x), y);
    }
  }

  /** The update path from p reaches j exactly when slot j's range holds p. */
  lemma {:induction false} CoversIffChain(p: nat, j: nat)
    requires p >= 1 && j >= 1
    ensures Covers(j, p) <==> InChain(p, j)
    decreases j, j - p
  {
    if j < p {
    } else if j == p {
    } else if p % 2 == 1 {
      assert LowBit(p) == 1 && Next(p) == p + 1;
      if j % 2 == 1 {
        assert LowBit(j) == 1;
        if InChain(p + 1, j) {
          EvenChain(p + 1, j);
        }
      } else {
        LowBitDouble(j / 2);
        assert Lo(j) == 2 * Lo(j / 2);
        CoversIffChain(p + 1, j);
      }
    } else if j % 2 == 1 {
      assert LowBit(j) == 1;
      if InChain(p, j) {
        EvenChain(p, j);
      }
    } else {
      LowBitDouble(j / 2);
      assert Lo(j) == 2 * Lo(j / 2);
      ChainDouble(p / 2, j / 2);
      CoversIffChain(p / 2, j / 2);
    }
  }

  /** The update path from p goes on from any of its slots to the next. */
  lemma {:induction false} ChainExtend(p: nat, i: nat)
    requires p >= 1 && i >= 1 && InChain(p, i)
    ensures InChain(p, Next(i))
    decreases i - p
  {
    if p != i {
      ChainExtend(Next(p), i);
    }
  }

  /** Two slots on one update path: the later is on the path from the earlier. */
  lemma {:induction false} ChainFrom(p: nat, i: nat, j: nat)
    requires p >= 1 && i >= 1 && InChain(p, i) && InChain(p, j) && i <= j
    ensures InChain(i, j)
    decreases j - p
  {
    if p != i {
      ChainFrom(Next(p), i, j);
    }
  }

  /** The next slot on the update path after slot i of it is Next(i). */
  lemma NextOnChain(p: nat, i: nat, j: nat)
    requires p >= 1 && i >= 1 && InChain(p, i) && InChain(p, j) && i < j
    ensures Next(i) <= j
  {
    ChainFrom(p, i, j);
  }

  // ---------------------------------------------------------------- the tree

  /** Slots 1 to n of tree hold the range sums of the point values vals[1..n]. */
  ghost predicate Represents(tree: seq<int>, vals: seq<int>, n: nat) {
    |tree| == n + 1 && |vals| == n + 1 &&
    forall j :: 1 <= j <= n ==> tree[j] == Sum(vals, Lo(j) + 1, j + 1)
  }

  /** An update that added d to exactly the slots on p's path leaves a tree for the
      values with d added at p. */
  lemma UpdateRepresents(tree: seq<int>, vals: seq<int>, n: nat, p: nat, d: int, tree': seq<int>)
    requires Represents(tree, vals, n) && 1 <= p <= n && |tree'| == n + 1
    requires forall j :: 1 <= j <= n ==> tree'[j] == tree[j] + (if InChain(p, j) then d else 0)
    ensures Represents(tree', vals[p := vals[p] + d], n)
  {
    forall j | 1 <= j <= n
      ensures tree'[j] == Sum(vals[p := vals[p] + d], Lo(j) + 1, j + 1)
    {
      CoversIffChain(p, j);
      SumUpdate(vals, p, d, Lo(j) + 1, j + 1);
    }
  }

  /** One step of a prefix query: the sum up to i is slot i plus the sum up to Lo(i). */
  lemma QueryStep(tree: seq<int>, vals: seq<int>, n: nat, i: nat)
    requires Represents(tree, vals, n) && 1 <= i <= n
    ensures Sum(vals, 1, i + 1) == tree[i] + Sum(vals, 1, Lo(i) + 1)
  {
    SumSplit(vals, 1, Lo(i) + 1, i + 1);
  }
}
