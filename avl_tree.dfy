/**
 * AvlTree: a self-balancing binary search tree of distinct integers.  Every node caches
 * its height and its balance factor (right height minus left height); insertion and
 * removal rebuild the path they walk, refresh the cached fields bottom-up and rotate
 * where a balance factor reaches 2 or -2.  The recursive helpers are modelled on the
 * Tree datatype (a node with refreshed fields is a new value); the searches, the
 * min/max walks and the in-order iterator are the loops of the source.
 */
module AvlTree {
  import opened Common

  /** A subtree: None, or a node with its value, its cached height and balance factor,
      and two children. */
  datatype Tree = Nil | Node(left: Tree, value: int, height: int, bf: int, right: Tree)

  /** The values held in t. */
  function Elems(t: Tree): set<int> {
    if t.Nil? then {} else Elems(t.left) + {t.value} + Elems(t.right)
  }

  /** Left subtree, node, right subtree. */
  function InOrder(t: Tree): seq<int> {
    if t.Nil? then [] else InOrder(t.left) + [t.value] + InOrder(t.right)
  }

  /** Every node's value lies above all values on its left and below all on its right. */
  ghost predicate Ordered(t: Tree) {
    t.Nil? ||
    (Ordered(t.left) && Ordered(t.right) &&
     (forall x :: x in Elems(t.left) ==> x < t.value) &&
     (forall x :: x in Elems(t.right) ==> t.value < x))
  }

  /** The height of t: the number of nodes on its longest downward path. */
  function Ht(t: Tree): nat {
    if t.Nil? then 0 else 1 + Max(Ht(t.left), Ht(t.right))
  }

  /** Every node's cached height and balance factor are its real ones. */
  ghost predicate Cached(t: Tree) {
    t.Nil? ||
    (Cached(t.left) && Cached(t.right) &&
     t.height == Ht(t) && t.bf == Ht(t.right) - Ht(t.left))
  }

  /** The AVL condition: at every node the heights of the two subtrees differ by at most 1. */
  ghost predicate Balanced(t: Tree) {
    t.Nil? ||
    (Balanced(t.left) && Balanced(t.right) && -1 <= Ht(t.right) - Ht(t.left) <= 1)
  }

  /** What every node the source builds keeps, whatever its cached fields say: a height of
      at least 1, a right child wherever the balance factor is positive and a left child
      wherever it is negative.  It is what lets _balance reach the children it reads. */
  ghost predicate Shaped(t: Tree) {
    t.Nil? ||
    (Shaped(t.left) && Shaped(t.right) && t.height >= 1 &&
     (t.bf > 0 ==> t.right.Node?) && (t.bf < 0 ==> t.left.Node?))
  }

  // ---------------------------------------------------------------- ordering facts

  /** The in-order sequence holds exactly the values of the tree. */
  lemma {:induction false} InOrderElems(t: Tree)
    ensures forall x :: x in InOrder(t) <==> x in Elems(t)
  {
    if t.Node? {
      InOrderElems(t.left);
      InOrderElems(t.right);
    }
  }

  /** Iterating an ordered tree gives strictly increasing values. */
  lemma {:induction false} InOrderIncreasing(t: Tree)
    requires Ordered(t)
    ensures StrictlyIncreasing(InOrder(t))
  {
    if t.Node? {
      InOrderIncreasing(t.left);
      InOrderIncreasing(t.right);
      InOrderElems(t.left);
      InOrderElems(t.right);
      var a, b := InOrder(t.left), InOrder(t.right);
      var s := InOrder(t);
      assert s == a + [t.value] + b;
      forall i, j | 0 <= i < j < |s|
        ensures s[i] < s[j]
      {
        if j < |a| {
          assert s[i] == a[i] && s[j] == a[j];
        } else if i > |a| {
          assert s[i] == b[i - |a| - 1] && s[j] == b[j - |a| - 1];
        } else {
          assert i < |a| ==> s[i] == a[i] && s[i] in a;
          assert j > |a| ==> s[j] == b[j - |a| - 1] && s[j] in b;
        }
      }
    }
  }

  /** With distinct values, the number of values is the number of nodes. */
  lemma {:induction false} DisjointChildren(t: Tree)
    requires t.Node? && Ordered(t)
    ensures |Elems(t)| == |Elems(t.left)| + 1 + |Elems(t.right)|
  {
    assert Elems(t.left) !! Elems(t.right) by {
      forall x | x in Elems(t.left) ensures x !in Elems(t.right) { }
    }
    assert t.value !in Elems(t.left) + Elems(t.right);
  }

  /** The number of nodes of t. */
  function Count(t: Tree): nat {
    if t.Nil? then 0 else Count(t.left) + 1 + Count(t.right)
  }

  /** In a search tree every node holds its own value, so there are as many values as
      nodes: node_count counts both. */
  lemma {:induction false} CountIsElems(t: Tree)
    requires Ordered(t)
    ensures Count(t) == |Elems(t)|
  {
    if t.Node? {
      CountIsElems(t.left);
      CountIsElems(t.right);
      DisjointChildren(t);
    }
  }

  // ---------------------------------------------------------------- the node helpers

  /** _compare: -1, 0 or 1 as value1 is below, equal to or above value2. */
  function Compare(value1: int, value2: int): (r: int)
    ensures -1 <= r <= 1
    ensures r < 0 <==> value1 < value2
    ensures r > 0 <==> value1 > value2
  {
    (if value1 > value2 then 1 else 0) - (if value1 < value2 then 1 else 0)
  }

  /** `node.height if node else 0`: the cached height of a subtree, 0 for None. */
  function HeightField(t: Tree): (r: int)
    ensures Cached(t) ==> r == Ht(t)
    ensures Shaped(t) ==> r >= 0 && (r == 0 <==> t.Nil?)
  {
    if t.Nil? then 0 else t.height
  }

  /** _update: the node with its height and balance factor recomputed from its children's
      cached heights; with cached children the node's fields become its real ones. */
  function Update(t: Tree): (r: Tree)
    requires t.Node?
    ensures r.Node? && r.left == t.left && r.value == t.value && r.right == t.right
    ensures Elems(r) == Elems(t) && (Ordered(t) ==> Ordered(r))
    ensures Cached(t.left) && Cached(t.right) ==> Cached(r)
    ensures Shaped(t.left) && Shaped(t.right) ==> Shaped(r)
  {
    var lh, rh := HeightField(t.left), HeightField(t.right);
    t.(height := 1 + Max(lh, rh), bf := rh - lh)
  }

  /** Turning a node whose left child is a node into that child's parent (or back) keeps
      the tree ordered: both shapes order the same three subtrees and two values alike. */
  lemma PivotOrdered(s: Tree, u: Tree)
    requires s.Node? && s.left.Node? && u.Node? && u.right.Node?
    requires u.left == s.left.left && u.value == s.left.value && u.right.left == s.left.right
    requires u.right.value == s.value && u.right.right == s.right
    ensures Ordered(s) <==> Ordered(u)
  {
    var a, x, b, y, c := s.left.left, s.left.value, s.left.right, s.value, s.right;
    assert Elems(s.left) == Elems(a) + {x} + Elems(b);
    assert Elems(u.right) == Elems(b) + {y} + Elems(c);
  }

  /** _left_rotation: the right child becomes the parent; the node is refreshed first and
      the new parent after it. */
  function LeftRotation(t: Tree): (r: Tree)
    requires t.Node? && t.right.Node?
    ensures r.Node? && InOrder(r) == InOrder(t) && Elems(r) == Elems(t)
    ensures r.value == t.right.value
    ensures Ordered(t) ==> Ordered(r)
    ensures Cached(t.left) && Cached(t.right) ==> Cached(r)
    ensures Shaped(t.left) && Shaped(t.right) ==> Shaped(r)
  {
    var p := t.right;
    var n := Update(t.(right := p.left));
    var r := Update(p.(left := n));
    assert Ordered(t) ==> Ordered(r) by {
      if Ordered(t) {
        PivotOrdered(r, t);
      }
    }
    r
  }

  /** _right_rotation as written: the new parent is refreshed before the node, so it
      reads the node's stale height, the height of the whole subtree before rotating.
      The shape, and with it the values and their order, are those of a right rotation. */
  function RightRotation(t: Tree): (r: Tree)
    requires t.Node? && t.left.Node?
    ensures r.Node? && InOrder(r) == InOrder(t) && Elems(r) == Elems(t)
    ensures r.value == t.left.value
    ensures Ordered(t) ==> Ordered(r)
    ensures Shaped(t) ==> Shaped(r)
  {
    var p := t.left;
    var stale := t.(left := p.right);
    var np := Update(p.(right := stale));
    var r := np.(right := Update(stale));
    assert Shaped(t) ==> Shaped(r) by {
      if Shaped(t) {
        assert Shaped(p) && HeightField(stale) == t.height >= 1;
        assert Shaped(p.left) && Shaped(p.right);
      }
    }
    assert Ordered(t) ==> Ordered(r) by {
      if Ordered(t) {
        PivotOrdered(t, r);
      }
    }
    r
  }

  /** _left_right_case: a left rotation of the left child, then the right rotation as
      written. */
  function LeftRightCase(t: Tree): (r: Tree)
    requires t.Node? && t.left.Node? && t.left.right.Node?
    ensures r.Node? && InOrder(r) == InOrder(t) && Elems(r) == Elems(t)
    ensures r.value == t.left.right.value
    ensures Ordered(t) ==> Ordered(r)
    ensures Shaped(t) ==> Shaped(r)
  {
    var n := t.(left := LeftRotation(t.left));
    assert Shaped(t) ==> Shaped(n) by {
      if Shaped(t) {
        assert Shaped(t.left);
      }
    }
    RightRotation(n)
  }

  /** _right_left_case: the right rotation as written of the right child, then a left
      rotation. */
  function RightLeftCase(t: Tree): (r: Tree)
    requires t.Node? && t.right.Node? && t.right.left.Node?
    ensures r.Node? && InOrder(r) == InOrder(t) && Elems(r) == Elems(t)
    ensures r.value == t.right.left.value
    ensures Ordered(t) ==> Ordered(r)
    ensures Shaped(t) ==> Shaped(r)
  {
    var n := t.(right := RightRotation(t.right));
    assert Shaped(t) ==> Shaped(n) by {
      if Shaped(t) {
        assert Shaped(t.right);
      }
    }
    LeftRotation(n)
  }

  /** _balance: a balance factor of -2 rotates right (left-right when the left child leans
      right), one of 2 rotates left (right-left when the right child leans left); any
      other leaves the node as it is.  The decision reads the cached fields, whatever they
      are; Shaped guarantees the children it reads are there. */
  function Balance(t: Tree): (r: Tree)
    requires t.Node? && Shaped(t)
    ensures r.Node? && Shaped(r) && InOrder(r) == InOrder(t) && Elems(r) == Elems(t)
    ensures Ordered(t) ==> Ordered(r)
    ensures t.bf != -2 && t.bf != 2 ==> r == t
    ensures t.bf == -2 && t.left.Node? && t.left.bf <= 0 ==> r.value == t.left.value
    ensures t.bf == -2 && t.left.Node? && t.left.bf > 0 && t.left.right.Node? ==>
              r.value == t.left.right.value
    ensures t.bf == 2 && t.right.Node? && t.right.bf >= 0 ==> r.value == t.right.value
    ensures t.bf == 2 && t.right.Node? && t.right.bf < 0 && t.right.left.Node? ==>
              r.value == t.right.left.value
  {
    if t.bf == -2 then
      if t.left.bf <= 0 then RightRotation(t)
      else
        assert Shaped(t.left);
        LeftRightCase(t)
    else if t.bf == 2 then
      if t.right.bf >= 0 then LeftRotation(t)
      else
        assert Shaped(t.right);
        RightLeftCase(t)
    else t
  }

  // ---------------------------------------------------------------- the intended rotation

  /** _right_rotation with its two refreshes in the evidently intended order: the node
      first, which is now the new parent's right child, then the new parent. */
  function RightRotationFixed(t: Tree): (r: Tree)
    requires t.Node? && t.left.Node?
    ensures r.Node? && InOrder(r) == InOrder(t) && Elems(r) == Elems(t)
    ensures Ordered(t) ==> Ordered(r)
    ensures Cached(t.left) && Cached(t.right) ==> Cached(r)
  {
    var p := t.left;
    var n := Update(t.(left := p.right));
    var r := Update(p.(right := n));
    assert Ordered(t) ==> Ordered(r) by {
      if Ordered(t) {
        PivotOrdered(t, r);
      }
    }
    r
  }

  /** _left_right_case over the intended right rotation. */
  function LeftRightCaseFixed(t: Tree): (r: Tree)
    requires t.Node? && t.left.Node? && t.left.right.Node?
    ensures r.Node? && InOrder(r) == InOrder(t) && Elems(r) == Elems(t)
    ensures Ordered(t) ==> Ordered(r)
    ensures Cached(t.left) && Cached(t.right) ==> Cached(r)
  {
    RightRotationFixed(t.(left := LeftRotation(t.left)))
  }

  /** _right_left_case over the intended right rotation. */
  function RightLeftCaseFixed(t: Tree): (r: Tree)
    requires t.Node? && t.right.Node? && t.right.left.Node?
    ensures r.Node? && InOrder(r) == InOrder(t) && Elems(r) == Elems(t)
    ensures Ordered(t) ==> Ordered(r)
    ensures Cached(t.left) && Cached(t.right) ==> Cached(r)
  {
    LeftRotation(t.(right := RightRotationFixed(t.right)))
  }

  /** _balance over the intended right rotation: on a node whose cached fields are right
      it leaves correct fields behind. */
  function BalanceFixed(t: Tree): (r: Tree)
    requires t.Node? && Cached(t)
    ensures r.Node? && Cached(r) && InOrder(r) == InOrder(t) && Elems(r) == Elems(t)
    ensures Ordered(t) ==> Ordered(r)
    ensures t.bf != -2 && t.bf != 2 ==> r == t
  {
    if t.bf == -2 then
      if t.left.bf <= 0 then RightRotationFixed(t)
      else
        assert t.left.Node? && Cached(t.left);
        assert t.left.bf == Ht(t.left.right) - Ht(t.left.left);
        LeftRightCaseFixed(t)
    else if t.bf == 2 then
      if t.right.bf >= 0 then LeftRotation(t)
      else
        assert t.right.Node? && Cached(t.right);
        assert t.right.bf == Ht(t.right.right) - Ht(t.right.left);
        RightLeftCaseFixed(t)
    else t
  }

  // ---------------------------------------------------------------- the intended rebalancing restores AVL

  /** A right rotation at a node two taller on the left whose left child does not lean
      right leaves a balanced tree at most one lower. */
  lemma RightRotationBalances(t: Tree)
    requires t.Node? && t.left.Node? && Cached(t.left) && Cached(t.right)
    requires Balanced(t.left) && Balanced(t.right)
    requires Ht(t.left) == Ht(t.right) + 2 && Ht(t.left.right) <= Ht(t.left.left)
    ensures Balanced(RightRotationFixed(t)) && Ht(t) - 1 <= Ht(RightRotationFixed(t)) <= Ht(t)
  {
    var r := RightRotationFixed(t);
    assert r.right.left == t.left.right && r.right.right == t.right;
    assert r.left == t.left.left;
  }

  /** The mirror image of RightRotationBalances. */
  lemma LeftRotationBalances(t: Tree)
    requires t.Node? && t.right.Node? && Cached(t.left) && Cached(t.right)
    requires Balanced(t.left) && Balanced(t.right)
    requires Ht(t.right) == Ht(t.left) + 2 && Ht(t.right.left) <= Ht(t.right.right)
    ensures Balanced(LeftRotation(t)) && Ht(t) - 1 <= Ht(LeftRotation(t)) <= Ht(t)
  {
    var r := LeftRotation(t);
    assert r.left.right == t.right.left && r.left.left == t.left;
    assert r.right == t.right.right;
  }

  /** A double rotation at a node two taller on the left whose left child leans right
      leaves a balanced tree one lower. */
  lemma LeftRightBalances(t: Tree)
    requires t.Node? && t.left.Node? && t.left.right.Node? && Cached(t.left) && Cached(t.right)
    requires Balanced(t.left) && Balanced(t.right)
    requires Ht(t.left) == Ht(t.right) + 2 && Ht(t.left.right) > Ht(t.left.left)
    ensures Balanced(LeftRightCaseFixed(t)) && Ht(LeftRightCaseFixed(t)) == Ht(t) - 1
  {
    var a, b, c := t.left.left, t.left.right, t.right;
    assert Ht(a) == Ht(c) && Ht(b) == Ht(c) + 1;
    assert Balanced(b.left) && Balanced(b.right);
    assert Ht(c) - 1 <= Ht(b.left) <= Ht(c) && Ht(c) - 1 <= Ht(b.right) <= Ht(c);
    var r := LeftRightCaseFixed(t);
    assert r.left.left == a && r.left.right == b.left;
    assert r.right.left == b.right && r.right.right == c;
    assert Balanced(r.left) && Ht(r.left) == Ht(c) + 1;
    assert Balanced(r.right) && Ht(r.right) == Ht(c) + 1;
  }

  /** The mirror image of LeftRightBalances. */
  lemma RightLeftBalances(t: Tree)
    requires t.Node? && t.right.Node? && t.right.left.Node? && Cached(t.left) && Cached(t.right)
    requires Balanced(t.left) && Balanced(t.right)
    requires Ht(t.right) == Ht(t.left) + 2 && Ht(t.right.left) > Ht(t.right.right)
    ensures Balanced(RightLeftCaseFixed(t)) && Ht(RightLeftCaseFixed(t)) == Ht(t) - 1
  {
    var a, b, c := t.right.right, t.right.left, t.left;
    assert Ht(a) == Ht(c) && Ht(b) == Ht(c) + 1;
    assert Balanced(b.left) && Balanced(b.right);
    assert Ht(c) - 1 <= Ht(b.left) <= Ht(c) && Ht(c) - 1 <= Ht(b.right) <= Ht(c);
    var r := RightLeftCaseFixed(t);
    assert r.right.right == a && r.right.left == b.right;
    assert r.left.right == b.left && r.left.left == c;
    assert Balanced(r.right) && Ht(r.right) == Ht(c) + 1;
    assert Balanced(r.left) && Ht(r.left) == Ht(c) + 1;
  }

  /** Balancing a cached node whose subtrees are balanced and differ in height by at most
      2 leaves a balanced tree at most one lower. */
  lemma BalanceRestores(t: Tree)
    requires t.Node? && Cached(t) && Balanced(t.left) && Balanced(t.right)
    requires -2 <= Ht(t.right) - Ht(t.left) <= 2
    ensures Balanced(BalanceFixed(t)) && Ht(t) - 1 <= Ht(BalanceFixed(t)) <= Ht(t)
  {
    if t.bf == -2 {
      if t.left.bf <= 0 {
        RightRotationBalances(t);
      } else {
        LeftRightBalances(t);
      }
    } else if t.bf == 2 {
      if t.right.bf >= 0 {
        LeftRotationBalances(t);
      } else {
        RightLeftBalances(t);
      }
    }
  }

  /** After one subtree of a balanced node grew by at most one, refreshing and balancing
      the node gives a balanced tree at most one taller than before. */
  lemma GrowRebalance(t: Tree, n: Tree)
    requires t.Node? && Balanced(t) && n.Node? && Cached(n.left) && Cached(n.right)
    requires Balanced(n.left) && Balanced(n.right)
    requires (n.right == t.right && Ht(t.left) <= Ht(n.left) <= Ht(t.left) + 1) ||
             (n.left == t.left && Ht(t.right) <= Ht(n.right) <= Ht(t.right) + 1)
    ensures Balanced(BalanceFixed(Update(n)))
    ensures Ht(t) <= Ht(BalanceFixed(Update(n))) <= Ht(t) + 1
  {
    BalanceRestores(Update(n));
  }

  /** After one subtree of a balanced node shrank by at most one, refreshing and
      balancing the node gives a balanced tree at most one lower than before. */
  lemma ShrinkRebalance(t: Tree, n: Tree)
    requires t.Node? && Balanced(t) && n.Node? && Cached(n.left) && Cached(n.right)
    requires Balanced(n.left) && Balanced(n.right)
    requires (n.right == t.right && Ht(t.left) - 1 <= Ht(n.left) <= Ht(t.left)) ||
             (n.left == t.left && Ht(t.right) - 1 <= Ht(n.right) <= Ht(t.right))
    ensures Balanced(BalanceFixed(Update(n)))
    ensures Ht(t) - 1 <= Ht(BalanceFixed(Update(n))) <= Ht(t)
  {
    BalanceRestores(Update(n));
  }

  // ---------------------------------------------------------------- insertion

  /** Replacing one subtree of an ordered node by an ordered subtree whose values lie on
      the same side of the node's value keeps the node ordered. */
  lemma GraftOrdered(t: Tree, n: Tree)
    requires t.Node? && Ordered(t) && n.Node? && n.value == t.value
    requires Ordered(n.left) && Ordered(n.right)
    requires forall x :: x in Elems(n.left) ==> x < t.value
    requires forall x :: x in Elems(n.right) ==> t.value < x
    ensures Ordered(n)
  {
  }

  /** _insert as written: false and t unchanged when value is already there; otherwise
      true and t with a new leaf for value, every node on the path refreshed and balanced
      through the right rotation as written.  The values and their order are kept; the
      cached fields, and with them the AVL balance, are not (InsertLosesBalance). */
  function InsertIn(t: Tree, value: int): (r: (bool, Tree))
    requires Shaped(t)
    ensures r.1.Node? && Shaped(r.1) && Elems(r.1) == Elems(t) + {value}
    ensures Ordered(t) ==> Ordered(r.1) && (r.0 <==> value !in Elems(t))
    ensures !r.0 ==> r.1 == t
  {
    if t.Nil? then (true, Node(Nil, value, 1, 0, Nil))
    else
      var cmp := Compare(value, t.value);
      if cmp < 0 then
        var (inserted, left) := InsertIn(t.left, value);
        var n := t.(left := left);
        assert Ordered(t) ==> Ordered(n) by {
          if Ordered(t) {
            GraftOrdered(t, n);
          }
        }
        if inserted then (true, Balance(Update(n))) else (false, n)
      else if cmp > 0 then
        var (inserted, right) := InsertIn(t.right, value);
        var n := t.(right := right);
        assert Ordered(t) ==> Ordered(n) by {
          if Ordered(t) {
            GraftOrdered(t, n);
          }
        }
        if inserted then (true, Balance(Update(n))) else (false, n)
      else (false, t)
  }

  /** _insert over the intended right rotation: the same values and order, and the cached
      fields stay right. */
  function InsertInFixed(t: Tree, value: int): (r: (bool, Tree))
    requires Cached(t)
    ensures Cached(r.1) && Elems(r.1) == Elems(t) + {value}
    ensures Ordered(t) ==> Ordered(r.1) && (r.0 <==> value !in Elems(t))
    ensures !r.0 ==> r.1 == t
  {
    if t.Nil? then (true, Node(Nil, value, 1, 0, Nil))
    else
      var cmp := Compare(value, t.value);
      if cmp < 0 then
        var (inserted, left) := InsertInFixed(t.left, value);
        var n := t.(left := left);
        assert Ordered(t) ==> Ordered(n) by {
          if Ordered(t) {
            GraftOrdered(t, n);
          }
        }
        if inserted then (true, BalanceFixed(Update(n))) else (false, n)
      else if cmp > 0 then
        var (inserted, right) := InsertInFixed(t.right, value);
        var n := t.(right := right);
        assert Ordered(t) ==> Ordered(n) by {
          if Ordered(t) {
            GraftOrdered(t, n);
          }
        }
        if inserted then (true, BalanceFixed(Update(n))) else (false, n)
      else (false, t)
  }

  /** With the intended rotation, insertion keeps a tree balanced and raises its height
      by at most one. */
  lemma {:induction false} InsertBalanced(t: Tree, value: int)
    requires Cached(t) && Balanced(t)
    ensures Balanced(InsertInFixed(t, value).1)
    ensures Ht(t) <= Ht(InsertInFixed(t, value).1) <= Ht(t) + 1
  {
    if t.Node? {
      var cmp := Compare(value, t.value);
      if cmp < 0 {
        InsertBalanced(t.left, value);
        var (inserted, left) := InsertInFixed(t.left, value);
        if inserted {
          GrowRebalance(t, t.(left := left));
        }
      } else if cmp > 0 {
        InsertBalanced(t.right, value);
        var (inserted, right) := InsertInFixed(t.right, value);
        if inserted {
          GrowRebalance(t, t.(right := right));
        }
      }
    }
  }

  // ---------------------------------------------------------------- removal

  /** The value reached by following left children. */
  function Leftmost(t: Tree): int
    requires t.Node?
  {
    if t.left.Nil? then t.value else Leftmost(t.left)
  }

  /** The value reached by following right children. */
  function Rightmost(t: Tree): int
    requires t.Node?
  {
    if t.right.Nil? then t.value else Rightmost(t.right)
  }

  /** In an ordered tree the leftmost value is the least. */
  lemma {:induction false} LeftmostLeast(t: Tree)
    requires t.Node? && Ordered(t)
    ensures Leftmost(t) in Elems(t) && forall y :: y in Elems(t) ==> Leftmost(t) <= y
  {
    if t.left.Node? {
      LeftmostLeast(t.left);
    }
  }

  /** In an ordered tree the rightmost value is the greatest. */
  lemma {:induction false} RightmostGreatest(t: Tree)
    requires t.Node? && Ordered(t)
    ensures Rightmost(t) in Elems(t) && forall y :: y in Elems(t) ==> y <= Rightmost(t)
  {
    if t.right.Node? {
      RightmostGreatest(t.right);
    }
  }

  /** _find_min: the value reached by following left children from t. */
  method FindMin(t: Tree) returns (r: int)
    requires t.Node?
    ensures r == Leftmost(t)
  {
    var node := t;
    while node.left.Node?
      invariant node.Node? && Leftmost(node) == Leftmost(t)
      decreases node
    {
      node := node.left;
    }
    return node.value;
  }

  /** _find_max: the value reached by following right children from t. */
  method FindMax(t: Tree) returns (r: int)
    requires t.Node?
    ensures r == Rightmost(t)
  {
    var node := t;
    while node.right.Node?
      invariant node.Node? && Rightmost(node) == Rightmost(t)
      decreases node
    {
      node := node.right;
    }
    return node.value;
  }

  /** _remove as written: false and t unchanged when value is absent; otherwise true and
      t without value.  A node with one child gives way to it; a node with two takes the
      greatest value on its left when the left's cached height is larger, else the least
      on its right, and that value is removed from there.  Every node on the path is
      refreshed and balanced through the right rotation as written. */
  method RemoveFrom(t: Tree, value: int) returns (removed: bool, r: Tree)
    requires Shaped(t) && Ordered(t)
    ensures Shaped(r) && Ordered(r) && Elems(r) == Elems(t) - {value}
    ensures removed <==> value in Elems(t)
    ensures !removed ==> r == t
    decreases t
  {
    if t.Nil? {
      return false, t;
    }
    var cmp := Compare(value, t.value);
    var n: Tree;
    if cmp < 0 {
      var left;
      removed, left := RemoveFrom(t.left, value);
      n := t.(left := left);
      RemovedBelow(t, n, value);
    } else if cmp > 0 {
      var right;
      removed, right := RemoveFrom(t.right, value);
      n := t.(right := right);
      RemovedAbove(t, n, value);
    } else if t.left.Nil? {
      OnlyChild(t);
      return true, t.right;
    } else if t.right.Nil? {
      OnlyChild(t);
      return true, t.left;
    } else if t.left.height > t.right.height {
      var successor := FindMax(t.left);
      RightmostGreatest(t.left);
      var left;
      removed, left := RemoveFrom(t.left, successor);
      n := Node(left, successor, t.height, t.bf, t.right);
      ReplacedByMax(t, n);
    } else {
      var successor := FindMin(t.right);
      LeftmostLeast(t.right);
      var right;
      removed, right := RemoveFrom(t.right, successor);
      n := Node(t.left, successor, t.height, t.bf, right);
      ReplacedByMin(t, n);
    }
    if removed {
      r := Balance(Update(n));
    } else {
      r := n;
    }
  }

  /** _remove over the intended right rotation: the cached fields stay right and an
      AVL-balanced tree stays balanced, at most one lower. */
  method RemoveFromFixed(t: Tree, value: int) returns (removed: bool, r: Tree)
    requires Cached(t) && Ordered(t)
    ensures Cached(r) && Ordered(r) && Elems(r) == Elems(t) - {value}
    ensures removed <==> value in Elems(t)
    ensures !removed ==> r == t
    ensures Balanced(t) ==> Balanced(r) && Ht(t) - 1 <= Ht(r) <= Ht(t)
    decreases t
  {
    if t.Nil? {
      return false, t;
    }
    var cmp := Compare(value, t.value);
    var n: Tree;
    if cmp < 0 {
      var left;
      removed, left := RemoveFromFixed(t.left, value);
      n := t.(left := left);
      RemovedBelow(t, n, value);
    } else if cmp > 0 {
      var right;
      removed, right := RemoveFromFixed(t.right, value);
      n := t.(right := right);
      RemovedAbove(t, n, value);
    } else if t.left.Nil? {
      OnlyChild(t);
      return true, t.right;
    } else if t.right.Nil? {
      OnlyChild(t);
      return true, t.left;
    } else if t.left.height > t.right.height {
      var successor := FindMax(t.left);
      RightmostGreatest(t.left);
      var left;
      removed, left := RemoveFromFixed(t.left, successor);
      n := Node(left, successor, t.height, t.bf, t.right);
      ReplacedByMax(t, n);
    } else {
      var successor := FindMin(t.right);
      LeftmostLeast(t.right);
      var right;
      removed, right := RemoveFromFixed(t.right, successor);
      n := Node(t.left, successor, t.height, t.bf, right);
      ReplacedByMin(t, n);
    }
    if removed {
      if Balanced(t) {
        ShrinkRebalance(t, n);
      }
      r := BalanceFixed(Update(n));
    } else {
      r := n;
    }
  }

  /** Removing a value below the node's from its left subtree removes it from the node. */
  lemma RemovedBelow(t: Tree, n: Tree, value: int)
    requires t.Node? && Ordered(t) && value < t.value
    requires n.Node? && n.value == t.value && n.right == t.right
    requires Ordered(n.left) && Elems(n.left) == Elems(t.left) - {value}
    ensures Ordered(n) && Elems(n) == Elems(t) - {value}
    ensures value in Elems(t) <==> value in Elems(t.left)
  {
    assert value !in Elems(t.right);
  }

  /** Removing a value above the node's from its right subtree removes it from the node. */
  lemma RemovedAbove(t: Tree, n: Tree, value: int)
    requires t.Node? && Ordered(t) && t.value < value
    requires n.Node? && n.value == t.value && n.left == t.left
    requires Ordered(n.right) && Elems(n.right) == Elems(t.right) - {value}
    ensures Ordered(n) && Elems(n) == Elems(t) - {value}
    ensures value in Elems(t) <==> value in Elems(t.right)
  {
    assert value !in Elems(t.left);
  }

  /** A node with at most one child gives way to it: the child holds every other value,
      and with correct cached fields it is one lower and balanced when the node is. */
  lemma OnlyChild(t: Tree)
    requires t.Node? && Ordered(t) && (t.left.Nil? || t.right.Nil?)
    ensures var c := if t.left.Nil? then t.right else t.left;
            Ordered(c) && Elems(c) == Elems(t) - {t.value} &&
            (Cached(t) ==> Cached(c) && Ht(c) == Ht(t) - 1 && (Balanced(t) ==> Balanced(c)))
  {
    assert t.value !in Elems(t.left) && t.value !in Elems(t.right);
  }

  /** Moving the greatest value on the left into the node, and removing it from the left,
      removes the node's own value and keeps the order. */
  lemma ReplacedByMax(t: Tree, n: Tree)
    requires t.Node? && Ordered(t) && t.left.Node?
    requires n.Node? && n.value == Rightmost(t.left) && n.right == t.right
    requires Ordered(n.left) && Elems(n.left) == Elems(t.left) - {n.value}
    ensures Ordered(n) && Elems(n) == Elems(t) - {t.value}
  {
    RightmostGreatest(t.left);
    assert t.value !in Elems(t.left) && t.value !in Elems(t.right);
    forall x | x in Elems(n.left) ensures x < n.value {
      assert x in Elems(t.left) && x != n.value;
    }
    forall x | x in Elems(n.right) ensures n.value < x {
      assert n.value < t.value;
    }
  }

  /** Moving the least value on the right into the node, and removing it from the right,
      removes the node's own value and keeps the order. */
  lemma ReplacedByMin(t: Tree, n: Tree)
    requires t.Node? && Ordered(t) && t.right.Node?
    requires n.Node? && n.value == Leftmost(t.right) && n.left == t.left
    requires Ordered(n.right) && Elems(n.right) == Elems(t.right) - {n.value}
    ensures Ordered(n) && Elems(n) == Elems(t) - {t.value}
  {
    LeftmostLeast(t.right);
    assert t.value !in Elems(t.left) && t.value !in Elems(t.right);
    forall x | x in Elems(n.right) ensures n.value < x {
      assert x in Elems(t.right) && x != n.value;
    }
    forall x | x in Elems(n.left) ensures x < n.value {
      assert t.value < n.value;
    }
  }

  // ---------------------------------------------------------------- searching and validating

  /** _contains: the search loop down from node, left for smaller and right for larger. */
  method ContainsIn(node: Tree, value: int) returns (r: bool)
    requires Ordered(node)
    ensures r <==> value in Elems(node)
  {
    var n := node;
    while n.Node?
      invariant Ordered(n) && (value in Elems(node) <==> value in Elems(n))
      decreases n
    {
      var cmp := Compare(value, n.value);
      if cmp < 0 {
        n := n.left;
      } else if cmp > 0 {
        n := n.right;
      } else {
        return true;
      }
    }
    return false;
  }

  /** `min_val < value < max_val`, None standing for an infinite bound. */
  predicate Within(lo: Option<int>, x: int, hi: Option<int>) {
    (lo.None? || lo.value < x) && (hi.None? || x < hi.value)
  }

  /** validate_bst_invariant(node, min_val, max_val): every value of node lies strictly
      between the bounds, and each subtree does within its parent's value. */
  function ValidateBst(node: Tree, lo: Option<int>, hi: Option<int>): bool {
    if node.Nil? then true
    else if !Within(lo, node.value, hi) then false
    else ValidateBst(node.left, lo, Some(node.value)) && ValidateBst(node.right, Some(node.value), hi)
  }

  /** The bounded check holds exactly for ordered trees whose values all lie within the
      bounds. */
  lemma {:induction false} ValidateIff(node: Tree, lo: Option<int>, hi: Option<int>)
    ensures ValidateBst(node, lo, hi) <==>
            Ordered(node) && forall x :: x in Elems(node) ==> Within(lo, x, hi)
  {
    if node.Node? {
      var l, v, r := node.left, node.value, node.right;
      ValidateIff(l, lo, Some(v));
      ValidateIff(r, Some(v), hi);
      var inside := forall x :: x in Elems(node) ==> Within(lo, x, hi);
      if ValidateBst(node, lo, hi) {
        assert Ordered(node);
        forall x | x in Elems(node) ensures Within(lo, x, hi) {
          if x in Elems(l) {
            assert Within(lo, x, Some(v));
          } else if x in Elems(r) {
            assert Within(Some(v), x, hi);
          }
        }
      }
      if Ordered(node) && inside {
        assert Within(lo, v, hi);
        forall x | x in Elems(l) ensures Within(lo, x, Some(v)) {
          assert x in Elems(node);
        }
        forall x | x in Elems(r) ensures Within(Some(v), x, hi) {
          assert x in Elems(node);
        }
      }
    }
  }

  /** Unbounded, the validation holds exactly for ordered trees. */
  lemma ValidateFromRootIff(node: Tree)
    ensures ValidateBst(node, None, None) <==> Ordered(node)
  {
    ValidateIff(node, None, None);
  }

  /** A tree whose root 5 has 7 on its left is not ordered, and the validation from its root
      rejects it, while the call with every argument defaulted accepts. */
  lemma DefaultCallAcceptsDisorder()
    ensures var bad := Node(Node(Nil, 7, 1, 0, Nil), 5, 2, -1, Nil);
            !Ordered(bad) && !ValidateBst(bad, None, None) && ValidateBst(Nil, None, None)
  {
    var bad := Node(Node(Nil, 7, 1, 0, Nil), 5, 2, -1, Nil);
    assert 7 in Elems(bad.left);
  }

  // ---------------------------------------------------------------- the stale right rotation

  /** The left-leaning chain the insertion of 3, 2 and 1 builds before it balances at 3. */
  function LeftChain(): Tree {
    Node(Node(Node(Nil, 1, 1, 0, Nil), 2, 2, -1, Nil), 3, 3, -2, Nil)
  }

  /** The chain's cached fields are right, and it is three high. */
  lemma LeftChainCached()
    ensures Cached(LeftChain()) && Ht(LeftChain()) == 3
  {
    var leaf := Node(Nil, 1, 1, 0, Nil);
    var mid := Node(leaf, 2, 2, -1, Nil);
    assert Ht(leaf) == 1 && Cached(leaf);
    assert Ht(mid) == 2 && Cached(mid);
  }

  /** The first refresh of the rotation as written: the new parent 2 reads the node 3's
      height before it is refreshed. */
  lemma StaleParentRefresh()
    ensures Update(Node(Node(Nil, 1, 1, 0, Nil), 2, 2, -1, Node(Nil, 3, 3, -2, Nil))) ==
            Node(Node(Nil, 1, 1, 0, Nil), 2, 4, 2, Node(Nil, 3, 3, -2, Nil))
  {
    assert HeightField(Node(Nil, 3, 3, -2, Nil)) == 3 && HeightField(Node(Nil, 1, 1, 0, Nil)) == 1;
  }

  /** The second refresh: the node 3, now a leaf, gets height 1. */
  lemma LeafRefresh(v: int, h: int, b: int)
    ensures Update(Node(Nil, v, h, b, Nil)) == Node(Nil, v, 1, 0, Nil)
  {
    assert HeightField(Nil) == 0;
  }

  /** Rotating that chain right as written gives the new root 2 a cached height of 4 and
      a balance factor of 2, although the rotated tree is two high and level. */
  lemma StaleRightRotation()
    ensures var r := RightRotation(LeftChain());
            r == Node(Node(Nil, 1, 1, 0, Nil), 2, 4, 2, Node(Nil, 3, 1, 0, Nil)) &&
            r.value == 2 && r.height == 4 && r.bf == 2 && Ht(r) == 2 && !Cached(r)
  {
    var leaf := Node(Nil, 1, 1, 0, Nil);
    var n3 := Node(Nil, 3, 1, 0, Nil);
    var r := Node(leaf, 2, 4, 2, n3);
    assert RightRotation(LeftChain()) == r by {
      StaleParentRefresh();
      LeafRefresh(3, 3, -2);
    }
    assert Ht(r) == 2 by {
      assert Ht(leaf) == 1 && Ht(n3) == 1;
    }
  }

  /** The intended second refresh: the new parent 2 reads the node 3 already refreshed. */
  lemma FixedParentRefresh()
    ensures Update(Node(Node(Nil, 1, 1, 0, Nil), 2, 2, -1, Node(Nil, 3, 1, 0, Nil))) ==
            Node(Node(Nil, 1, 1, 0, Nil), 2, 2, 0, Node(Nil, 3, 1, 0, Nil))
  {
    assert HeightField(Node(Nil, 3, 1, 0, Nil)) == 1 && HeightField(Node(Nil, 1, 1, 0, Nil)) == 1;
  }

  /** Rotated in the intended order, the same chain gets the root 2 with its real height
      2 and balance factor 0. */
  lemma FixedRightRotation()
    ensures var r := RightRotationFixed(LeftChain());
            r.value == 2 && r.height == 2 && r.bf == 0 && Cached(r)
  {
    var leaf := Node(Nil, 1, 1, 0, Nil);
    var n := Node(Nil, 3, 1, 0, Nil);
    var r := Node(leaf, 2, 2, 0, n);
    assert RightRotationFixed(LeftChain()) == r by {
      LeafRefresh(3, 3, -2);
      FixedParentRefresh();
    }
    assert Cached(r) by {
      assert Ht(leaf) == 1 && Cached(leaf) && Ht(n) == 1 && Cached(n);
    }
  }

  /** Below the leaf 2, inserting 1 adds a left leaf and refreshes 2, which stays. */
  lemma InsertOneUnderTwo()
    ensures InsertIn(Node(Nil, 2, 1, 0, Nil), 1) ==
            (true, Node(Node(Nil, 1, 1, 0, Nil), 2, 2, -1, Nil))
  {
    var leaf := Node(Nil, 1, 1, 0, Nil);
    assert InsertIn(Nil, 1) == (true, leaf);
    assert Update(Node(leaf, 2, 1, 0, Nil)) == Node(leaf, 2, 2, -1, Nil);
  }

  /** Below 3 -> 2, inserting 1 builds the left chain and rotates it right as written. */
  lemma InsertOneUnderThree()
    ensures InsertIn(Node(Node(Nil, 2, 1, 0, Nil), 3, 2, -1, Nil), 1) ==
            (true, Node(Node(Nil, 1, 1, 0, Nil), 2, 4, 2, Node(Nil, 3, 1, 0, Nil)))
  {
    var mid := Node(Node(Nil, 1, 1, 0, Nil), 2, 2, -1, Nil);
    InsertOneUnderTwo();
    assert Update(Node(mid, 3, 2, -1, Nil)) == LeftChain();
    assert Balance(LeftChain()) == RightRotation(LeftChain());
    StaleRightRotation();
  }

  /** Inserting 3, 2 and 1 as written ends in the stale rotation: height() would return
      the root's cached 4 for a tree two high. */
  lemma InsertThreeTwoOne()
    ensures var t := InsertIn(InsertIn(InsertIn(Nil, 3).1, 2).1, 1).1;
            t.value == 2 && HeightField(t) == 4 && Ht(t) == 2
  {
    var t1 := Node(Nil, 3, 1, 0, Nil);
    assert InsertIn(Nil, 3).1 == t1;
    var t2 := Node(Node(Nil, 2, 1, 0, Nil), 3, 2, -1, Nil);
    assert InsertIn(t1, 2).1 == t2 by {
      assert InsertIn(Nil, 2).1 == Node(Nil, 2, 1, 0, Nil);
    }
    InsertOneUnderThree();
    StaleRightRotation();
  }

  /** The tree that inserting 5, 3, 7, 2 and 1 as written leaves: the stale rotation at 3
      gave the new left child 2 a cached height of 4, so the root 5 has balance factor -3,
      which _balance does not act on. */
  function FiveInserted(): (t: Tree)
    ensures Shaped(t)
  {
    assert Shaped(Node(Nil, 1, 1, 0, Nil)) && Shaped(Node(Nil, 3, 1, 0, Nil));
    Node(Node(Node(Nil, 1, 1, 0, Nil), 2, 4, 2, Node(Nil, 3, 1, 0, Nil)), 5, 5, -3,
         Node(Nil, 7, 1, 0, Nil))
  }

  /** The tree 5, 3, 7, 2 leaves: correct fields, no rotation needed on the way. */
  function FourInserted(): Tree {
    Node(Node(Node(Nil, 2, 1, 0, Nil), 3, 2, -1, Nil), 5, 3, -1, Node(Nil, 7, 1, 0, Nil))
  }

  /** Inserting 5 and then 3 gives 5 with a left leaf 3. */
  lemma InsertFiveThree()
    ensures InsertIn(InsertIn(Nil, 5).1, 3).1 == Node(Node(Nil, 3, 1, 0, Nil), 5, 2, -1, Nil)
  {
    var t1 := Node(Nil, 5, 1, 0, Nil);
    assert InsertIn(Nil, 5).1 == t1;
    assert InsertIn(Nil, 3).1 == Node(Nil, 3, 1, 0, Nil);
  }

  /** Inserting 7 next adds a right leaf and levels 5. */
  lemma InsertSevenLevels()
    ensures InsertIn(Node(Node(Nil, 3, 1, 0, Nil), 5, 2, -1, Nil), 7).1 ==
            Node(Node(Nil, 3, 1, 0, Nil), 5, 2, 0, Node(Nil, 7, 1, 0, Nil))
  {
    assert InsertIn(Nil, 7).1 == Node(Nil, 7, 1, 0, Nil);
  }

  /** Inserting 2 next goes under 3 and leaves 5 leaning left by one. */
  lemma InsertTwoUnderThree()
    ensures InsertIn(Node(Node(Nil, 3, 1, 0, Nil), 5, 2, 0, Node(Nil, 7, 1, 0, Nil)), 2).1 ==
            FourInserted()
  {
    var l32 := Node(Node(Nil, 2, 1, 0, Nil), 3, 2, -1, Nil);
    assert InsertIn(Node(Nil, 3, 1, 0, Nil), 2) == (true, l32) by {
      assert InsertIn(Nil, 2).1 == Node(Nil, 2, 1, 0, Nil);
    }
    assert Update(Node(l32, 5, 2, 0, Node(Nil, 7, 1, 0, Nil))) == FourInserted();
  }

  /** Inserting 1 last rotates 3 -> 2 -> 1 as written below 5, whose refreshed balance
      factor is then -3. */
  lemma InsertOneIntoFour()
    ensures InsertIn(FourInserted(), 1) == (true, FiveInserted())
  {
    var r7 := Node(Nil, 7, 1, 0, Nil);
    var rotated := Node(Node(Nil, 1, 1, 0, Nil), 2, 4, 2, Node(Nil, 3, 1, 0, Nil));
    var t := FourInserted();
    assert t.left == Node(Node(Nil, 2, 1, 0, Nil), 3, 2, -1, Nil) && t.value == 5 && t.right == r7;
    InsertOneUnderThree();
    var f := FiveInserted();
    assert Update(Node(rotated, 5, 3, -1, r7)) == f;
    assert Balance(f) == f;
  }

  lemma InsertFive()
    ensures InsertIn(InsertIn(InsertIn(InsertIn(InsertIn(Nil, 5).1, 3).1, 7).1, 2).1, 1).1 ==
            FiveInserted()
  {
    InsertFiveThree();
    InsertSevenLevels();
    InsertTwoUnderThree();
    InsertOneIntoFour();
  }

  /** Below 7, inserting 6 adds a left leaf and refreshes 7. */
  lemma InsertSixUnderSeven()
    ensures InsertIn(Node(Nil, 7, 1, 0, Nil), 6) == (true, Node(Node(Nil, 6, 1, 0, Nil), 7, 2, -1, Nil))
  {
    assert InsertIn(Nil, 6) == (true, Node(Nil, 6, 1, 0, Nil));
    assert Update(Node(Node(Nil, 6, 1, 0, Nil), 7, 1, 0, Nil)) == Node(Node(Nil, 6, 1, 0, Nil), 7, 2, -1, Nil);
  }

  /** The tree inserting 6 after FiveInserted leaves. */
  function SixInserted(): Tree {
    Node(Node(Node(Nil, 1, 1, 0, Nil), 2, 2, -1, Nil), 3, 6, 3,
         Node(Nil, 5, 3, 2, Node(Node(Nil, 6, 1, 0, Nil), 7, 2, -1, Nil)))
  }

  /** Refreshing 5 over its new right subtree 7 -> 6 reads the stale height 4 of 2. */
  lemma RefreshAtFive()
    ensures var r76 := Node(Node(Nil, 6, 1, 0, Nil), 7, 2, -1, Nil);
            Update(FiveInserted().(right := r76)) ==
            Node(Node(Node(Nil, 1, 1, 0, Nil), 2, 4, 2, Node(Nil, 3, 1, 0, Nil)), 5, 5, -2, r76)
  {
    var l := Node(Node(Nil, 1, 1, 0, Nil), 2, 4, 2, Node(Nil, 3, 1, 0, Nil));
    var f := FiveInserted();
    assert f.left == l && f.value == 5;
  }

  /** The left rotation of 2 -> 3 lifts 3, with correct fields below it but 3 itself
      refreshed from 2's new height. */
  lemma LeftRotationAtTwo()
    ensures LeftRotation(Node(Node(Nil, 1, 1, 0, Nil), 2, 4, 2, Node(Nil, 3, 1, 0, Nil))) ==
            Node(Node(Node(Nil, 1, 1, 0, Nil), 2, 2, -1, Nil), 3, 3, -2, Nil)
  {
    var l1 := Node(Nil, 1, 1, 0, Nil);
    assert Update(Node(l1, 2, 4, 2, Nil)) == Node(l1, 2, 2, -1, Nil);
    assert Update(Node(Node(l1, 2, 2, -1, Nil), 3, 1, 0, Nil)) ==
           Node(Node(l1, 2, 2, -1, Nil), 3, 3, -2, Nil);
  }

  /** The right rotation as written at 5 lifts 3 and refreshes it before 5, from 5's stale
      height 5. */
  lemma RightRotationAtFive()
    ensures var r76 := Node(Node(Nil, 6, 1, 0, Nil), 7, 2, -1, Nil);
            RightRotation(Node(Node(Node(Node(Nil, 1, 1, 0, Nil), 2, 2, -1, Nil), 3, 3, -2, Nil),
                               5, 5, -2, r76)) == SixInserted()
  {
    var r76 := Node(Node(Nil, 6, 1, 0, Nil), 7, 2, -1, Nil);
    var l2 := Node(Node(Nil, 1, 1, 0, Nil), 2, 2, -1, Nil);
    var stale := Node(Nil, 5, 5, -2, r76);
    assert Update(Node(l2, 3, 3, -2, stale)) == Node(l2, 3, 6, 3, stale);
    assert Update(stale) == Node(Nil, 5, 3, 2, r76);
  }

  /** The refreshed 5 is a tree the code can build: every cached field is well formed. */
  lemma ShapedAtFive()
    ensures var r76 := Node(Node(Nil, 6, 1, 0, Nil), 7, 2, -1, Nil);
            Shaped(Node(Node(Node(Nil, 1, 1, 0, Nil), 2, 4, 2, Node(Nil, 3, 1, 0, Nil)), 5, 5, -2, r76))
  {
    assert Shaped(Node(Nil, 1, 1, 0, Nil)) && Shaped(Node(Nil, 3, 1, 0, Nil));
    assert Shaped(Node(Nil, 6, 1, 0, Nil));
  }

  /** Back at 5 the refreshed node has balance factor -2 and its left child 2 the stale
      balance factor 2, so _balance takes the left-right case. */
  lemma LeftRightAtFive()
    ensures var r76 := Node(Node(Nil, 6, 1, 0, Nil), 7, 2, -1, Nil);
            Balance(Update(FiveInserted().(right := r76))) == SixInserted()
  {
    var r76 := Node(Node(Nil, 6, 1, 0, Nil), 7, 2, -1, Nil);
    var l := Node(Node(Nil, 1, 1, 0, Nil), 2, 4, 2, Node(Nil, 3, 1, 0, Nil));
    var u := Node(l, 5, 5, -2, r76);
    RefreshAtFive();
    ShapedAtFive();
    assert Balance(u) == RightRotation(u.(left := LeftRotation(l))) by {
      assert u.bf == -2 && l.bf == 2 && l.right.Node?;
    }
    LeftRotationAtTwo();
    RightRotationAtFive();
  }

  /** Inserting 6 below FiveInserted goes right at 5, lands under 7 and rebalances 5. */
  lemma InsertSixIntoFive()
    ensures InsertIn(FiveInserted(), 6) == (true, SixInserted())
  {
    var f := FiveInserted();
    assert f.Node? && f.value == 5 && f.right == Node(Nil, 7, 1, 0, Nil);
    InsertSixUnderSeven();
    LeftRightAtFive();
  }

  /** SixInserted is not AVL-balanced: below 3, node 5 has no left child over the right
      subtree 7 -> 6, two high. */
  lemma SixUnbalanced()
    ensures var t := SixInserted();
            t.right.value == 5 && t.right.left.Nil? && Ht(t.right.right) == 2 && !Balanced(t)
  {
    var r76 := Node(Node(Nil, 6, 1, 0, Nil), 7, 2, -1, Nil);
    assert SixInserted().right == Node(Nil, 5, 3, 2, r76);
    assert Ht(r76) == 2 by {
      assert Ht(Node(Nil, 6, 1, 0, Nil)) == 1;
    }
  }

  /** Inserting 6 next takes the left-right case at 5 with the stale fields: the result is
      not AVL-balanced, since node 5 has no left child and a right subtree 7 -> 6 two
      high, and the root 3 caches height 6 and balance factor 3. */
  lemma InsertLosesBalance()
    ensures var t := InsertIn(FiveInserted(), 6).1;
            t.value == 3 && t.height == 6 && t.bf == 3 &&
            t.right.value == 5 && t.right.left.Nil? && Ht(t.right.right) == 2 && !Balanced(t)
  {
    InsertSixIntoFive();
    SixUnbalanced();
  }

  /** With the intended rotation the same six insertions keep the tree balanced. */
  lemma InsertFixedKeepsBalance()
    ensures var t := InsertInFixed(InsertInFixed(InsertInFixed(InsertInFixed(InsertInFixed(
              InsertInFixed(Nil, 5).1, 3).1, 7).1, 2).1, 1).1, 6).1;
            Balanced(t) && Cached(t)
  {
    var t := Nil;
    InsertBalanced(t, 5);
    t := InsertInFixed(t, 5).1;
    InsertBalanced(t, 3);
    t := InsertInFixed(t, 3).1;
    InsertBalanced(t, 7);
    t := InsertInFixed(t, 7).1;
    InsertBalanced(t, 2);
    t := InsertInFixed(t, 2).1;
    InsertBalanced(t, 1);
    t := InsertInFixed(t, 1).1;
    InsertBalanced(t, 6);
  }

  // ---------------------------------------------------------------- in-order iteration

  /** What the iterator still owes for a stack of visited nodes, top last: each node's
      value and then its right subtree. */
  function Pending(stack: seq<Tree>): seq<int> {
    if stack == [] then []
    else
      var top := stack[|stack| - 1];
      (if top.Node? then [top.value] + InOrder(top.right) else []) + Pending(stack[..|stack| - 1])
  }

  lemma PendingPush(stack: seq<Tree>, t: Tree)
    ensures Pending(stack + [t]) ==
            (if t.Node? then [t.value] + InOrder(t.right) else []) + Pending(stack)
  {
    assert (stack + [t])[..|stack|] == stack;
  }

  /** The iterator descends: trav goes on the stack and its left child is next. */
  lemma IterDescend(values: seq<int>, trav: Tree, stack: seq<Tree>)
    requires trav.Node?
    ensures values + InOrder(trav) + Pending(stack) ==
            values + InOrder(trav.left) + Pending(stack + [trav])
  {
    var il, ir, p := InOrder(trav.left), InOrder(trav.right), Pending(stack);
    var x := [trav.value] + ir;
    PendingPush(stack, trav);
    ConcatAssoc(il, [trav.value], ir);
    ConcatAssoc(values, il, x);
    ConcatAssoc(values + il, x, p);
  }

  /** The iterator yields the node on top of the stack and continues on its right. */
  lemma IterVisit(values: seq<int>, rest: seq<Tree>, node: Tree)
    requires node.Node?
    ensures values + InOrder(Nil) + Pending(rest + [node]) ==
            (values + [node.value]) + InOrder(node.right) + Pending(rest)
  {
    var ir, p := InOrder(node.right), Pending(rest);
    PendingPush(rest, node);
    assert values + InOrder(Nil) == values;
    ConcatAssoc(values, [node.value] + ir, p);
    ConcatAssoc(values, [node.value], ir);
  }

  // ---------------------------------------------------------------- the tree object

  class AvlTree {
    var root: Tree
    var nodeCount: nat

    /** The invariant the class keeps as written: a search tree of the shape the source
        builds, counted by nodeCount.  The cached fields need not be right and the tree
        need not be AVL-balanced (InsertLosesBalance). */
    ghost predicate Valid()
      reads this
    {
      Shaped(root) && Ordered(root) && nodeCount == |Elems(root)|
    }

    /** __init__: an empty tree. */
    constructor ()
      ensures Valid() && root == Nil
    {
      root := Nil;
      nodeCount := 0;
    }

    /** height: the root's cached height, 0 exactly for an empty tree; it is the real
        height while the cached fields are right (InsertThreeTwoOne shows they need not
        be). */
    method Height() returns (r: int)
      requires Valid()
      ensures r == HeightField(root)
      ensures r == 0 <==> Elems(root) == {}
      ensures Cached(root) ==> r == Ht(root)
    {
      return HeightField(root);
    }

    /** size: the number of values. */
    method Size() returns (r: nat)
      requires Valid()
      ensures r == |Elems(root)| && r == Count(root)
    {
      CountIsElems(root);
      return nodeCount;
    }

    /** is_empty: whether there are no values. */
    method IsEmpty() returns (r: bool)
      requires Valid()
      ensures r <==> Elems(root) == {}
    {
      var size := Size();
      return size == 0;
    }

    /** contains: whether value is in the tree. */
    method Contains(value: int) returns (r: bool)
      requires Valid()
      ensures r <==> value in Elems(root)
    {
      r := ContainsIn(root, value);
    }

    /** insert: false for None or a value already present, changing nothing; otherwise
        value goes in through _insert as written and the count grows by one. */
    method Insert(value: Option<int>) returns (r: bool)
      requires Valid()
      modifies this
      ensures Valid()
      ensures r <==> value.Some? && value.value !in old(Elems(root))
      ensures value.None? ==> root == old(root)
      ensures value.Some? ==> root == InsertIn(old(root), value.value).1
      ensures Elems(root) == old(Elems(root)) + (if value.Some? then {value.value} else {})
      ensures nodeCount == old(nodeCount) + (if r then 1 else 0)
    {
      if value.None? {
        return false;
      }
      var (inserted, newRoot) := InsertIn(root, value.value);
      root := newRoot;
      if inserted {
        nodeCount := nodeCount + 1;
      }
      return inserted;
    }

    /** remove: false when value is absent, changing nothing; otherwise value is removed
        through _remove as written and the count drops by one. */
    method Remove(value: int) returns (r: bool)
      requires Valid()
      modifies this
      ensures Valid()
      ensures r <==> value in old(Elems(root))
      ensures !r ==> root == old(root)
      ensures Elems(root) == old(Elems(root)) - {value}
      ensures nodeCount == old(nodeCount) - (if r then 1 else 0)
    {
      var removed, newRoot := RemoveFrom(root, value);
      root := newRoot;
      if removed {
        nodeCount := nodeCount - 1;
      }
      return removed;
    }

    /** __iter__: walk left pushing nodes, pop one and yield its value, continue from its
        right child; the values come out in order, strictly increasing. */
    method Iterate() returns (values: seq<int>)
      requires Valid()
      ensures values == InOrder(root) && StrictlyIncreasing(values)
    {
      var stack: seq<Tree> := [];
      var trav := root;
      values := [];
      while stack != [] || trav.Node?
        invariant forall i :: 0 <= i < |stack| ==> stack[i].Node?
        invariant values + InOrder(trav) + Pending(stack) == InOrder(root)
        decreases |InOrder(trav)| + |Pending(stack)|
      {
        while trav.Node?
          invariant forall i :: 0 <= i < |stack| ==> stack[i].Node?
          invariant values + InOrder(trav) + Pending(stack) == InOrder(root)
          decreases trav
        {
          IterDescend(values, trav, stack);
          stack := stack + [trav];
          trav := trav.left;
        }
        var node := stack[|stack| - 1];
        var rest := stack[..|stack| - 1];
        assert stack == rest + [node];
        IterVisit(values, rest, node);
        stack := rest;
        values := values + [node.value];
        trav := node.right;
      }
      InOrderIncreasing(root);
    }

    /** validate_bst_invariant() as the example calls it: node defaults to None, so the
        check returns true without looking at the tree. */
    method ValidateBstInvariant() returns (r: bool)
      ensures r
    {
      return ValidateBst(Nil, None, None);
    }

    /** validate_bst_invariant(root): the evidently intended check from the root, which
        holds exactly when the tree is ordered. */
    method ValidateFromRoot() returns (r: bool)
      ensures r <==> Ordered(root)
    {
      ValidateFromRootIff(root);
      return ValidateBst(root, None, None);
    }
  }

  // ---------------------------------------------------------------- the usage example

  /** An in-order listing of a tree holding exactly the values of a strictly increasing
      sequence is that sequence. */
  lemma ListingIs(values: seq<int>, root: Tree, expected: seq<int>)
    requires values == InOrder(root) && Ordered(root) && StrictlyIncreasing(expected)
    requires forall x :: x in Elems(root) <==> x in expected
    ensures values == expected
  {
    InOrderElems(root);
    InOrderIncreasing(root);
    IncreasingUnique(values, expected);
  }

  /** The two listings the example expects are strictly increasing. */
  lemma ExampleListingsIncreasing()
    ensures StrictlyIncreasing([5, 10, 15, 20, 25, 30]) && StrictlyIncreasing([5, 10, 15, 25, 30])
  {
  }

  /** The values of a prefix one longer are those of the prefix and the next value. */
  lemma PrefixValuesGrow(values: seq<int>, i: nat, longer: seq<int>)
    requires i < |values| && longer == values[..i + 1]
    ensures (set x | x in longer) == (set x | x in values[..i]) + {values[i]}
  {
    assert longer == values[..i] + [values[i]];
  }

  /** The example's insertion loop: every value of values goes in, in turn. */
  method InsertAll(avl: AvlTree, values: seq<int>)
    requires avl.Valid()
    modifies avl
    ensures avl.Valid() && Elems(avl.root) == old(Elems(avl.root)) + (set x | x in values)
  {
    for i := 0 to |values|
      invariant avl.Valid()
      invariant Elems(avl.root) == old(Elems(avl.root)) + (set x | x in values[..i])
    {
      PrefixValuesGrow(values, i, values[..i + 1]);
      var inserted := avl.Insert(Some(values[i]));
    }
    assert values[..|values|] == values;
  }

  /** Taking 20 out of the example's six values leaves the other five. */
  lemma ExampleRemoval(full: set<int>, rest: set<int>)
    requires full == {5, 10, 15, 20, 25, 30} && rest == full - {20}
    ensures forall x :: x in rest <==> x in [5, 10, 15, 25, 30]
  {
    assert rest == {5, 10, 15, 25, 30};
  }

  /** The example: the six values come out sorted, removing 20 leaves the other five in
      order, and the defaulted validation call answers true. */
  method AvlTreeExample() returns (before: seq<int>, after: seq<int>, valid: bool)
    ensures before == [5, 10, 15, 20, 25, 30]
    ensures after == [5, 10, 15, 25, 30]
    ensures valid
  {
    ExampleListingsIncreasing();
    var avl := new AvlTree();
    InsertAll(avl, [10, 20, 30, 15, 25, 5]);
    assert Elems(avl.root) == {5, 10, 15, 20, 25, 30};
    before := avl.Iterate();
    ListingIs(before, avl.root, [5, 10, 15, 20, 25, 30]);
    ghost var full := Elems(avl.root);
    var removed := avl.Remove(20);
    ExampleRemoval(full, Elems(avl.root));
    after := avl.Iterate();
    ListingIs(after, avl.root, [5, 10, 15, 25, 30]);
    valid := avl.ValidateBstInvariant();
  }
}
