/**
 * BinarySearchTree: an unbalanced binary search tree of distinct integers.  The recursive
 * helpers (_add, _remove, _contains, _height) rebuild or inspect a subtree and are modelled
 * on the Tree datatype; the class keeps the root and the node count, which add and remove
 * update; the four traversals are the stack and queue loops of the source.
 */
module BinarySearchTree {
  import opened Common

  /** A subtree: None, or a node with its data and two children. */
  datatype Tree = Nil | Node(left: Tree, data: int, right: Tree)

  /** The data held in t. */
  function Elems(t: Tree): set<int> {
    if t.Nil? then {} else Elems(t.left) + {t.data} + Elems(t.right)
  }

  /** The number of nodes of t. */
  function Count(t: Tree): nat {
    if t.Nil? then 0 else Count(t.left) + 1 + Count(t.right)
  }

  /** Every node's data lies above all data on its left and below all data on its right. */
  ghost predicate Ordered(t: Tree) {
    t.Nil? ||
    (Ordered(t.left) && Ordered(t.right) &&
     (forall x :: x in Elems(t.left) ==> x < t.data) &&
     (forall x :: x in Elems(t.right) ==> t.data < x))
  }

  // ---------------------------------------------------------------- reference orders

  /** Left subtree, node, right subtree. */
  function InOrder(t: Tree): (r: seq<int>)
    ensures |r| == Count(t)
  {
    if t.Nil? then [] else InOrder(t.left) + [t.data] + InOrder(t.right)
  }

  /** The in-order sequence holds exactly the data of the tree. */
  lemma {:induction false} InOrderElems(t: Tree)
    ensures forall x :: x in InOrder(t) <==> x in Elems(t)
  {
    if t.Node? {
      InOrderElems(t.left);
      InOrderElems(t.right);
    }
  }

  /** Node, left subtree, right subtree. */
  function PreOrder(t: Tree): seq<int> {
    if t.Nil? then [] else [t.data] + PreOrder(t.left) + PreOrder(t.right)
  }

  /** Left subtree, right subtree, node. */
  function PostOrder(t: Tree): seq<int> {
    if t.Nil? then [] else PostOrder(t.left) + PostOrder(t.right) + [t.data]
  }

  /** The in-order sequence of an ordered tree is strictly increasing: the data in sorted
      order. */
  lemma {:induction false} InOrderIncreasing(t: Tree)
    requires Ordered(t)
    ensures StrictlyIncreasing(InOrder(t))
  {
    if t.Node? {
      InOrderIncreasing(t.left);
      InOrderIncreasing(t.right);
      InOrderElems(t.left);
      InOrderElems(t.right);
      var a, b := InOrder(t.left), InOrder(t.right);
      var s := InOrder(t);
      assert s == a + [t.data] + b;
      forall i, j | 0 <= i < j < |s|
        ensures s[i] < s[j]
      {
        if j < |a| {
          assert s[i] == a[i] && s[j] == a[j];
        } else if i > |a| {
          assert s[i] == b[i - |a| - 1] && s[j] == b[j - |a| - 1];
        } else {
          assert i < |a| ==> s[i] == a[i] && s[i] in a;
          assert j > |a| ==> s[j] == b[j - |a| - 1] && s[j] in b;
        }
      }
    }
  }

  /** The three depth-first orders visit the same data. */
  lemma {:induction false} OrdersSameData(t: Tree)
    ensures multiset(PreOrder(t)) == multiset(InOrder(t))
    ensures multiset(PostOrder(t)) == multiset(InOrder(t))
  {
    if t.Node? {
      OrdersSameData(t.left);
      OrdersSameData(t.right);
    }
  }

  // ---------------------------------------------------------------- the recursive helpers

  /** _contains: the search down from t, left for smaller and right for larger. */
  function ContainsIn(t: Tree, elem: int): (r: bool)
    ensures Ordered(t) ==> (r <==> elem in Elems(t))
  {
    if t.Nil? then false
    else if elem < t.data then ContainsIn(t.left, elem)
    else if elem > t.data then ContainsIn(t.right, elem)
    else true
  }

  /** _add: a new leaf for elem, to the left of larger data and to the right otherwise. */
  function Insert(t: Tree, elem: int): (r: Tree)
    ensures r.Node? && Elems(r) == Elems(t) + {elem} && Count(r) == Count(t) + 1
    ensures Ordered(t) && elem !in Elems(t) ==> Ordered(r)
    ensures HeightOf(t) <= HeightOf(r) <= HeightOf(t) + 1
  {
    if t.Nil? then Node(Nil, elem, Nil)
    else if elem < t.data then Node(Insert(t.left, elem), t.data, t.right)
    else Node(t.left, t.data, Insert(t.right, elem))
  }

  /** _height: 0 for an empty tree, otherwise one more than the taller child. */
  function HeightOf(t: Tree): nat {
    if t.Nil? then 0 else 1 + Max(HeightOf(t.left), HeightOf(t.right))
  }

  function Pow2(n: nat): (r: nat)
    ensures r >= 1
  {
    if n == 0 then 1 else 2 * Pow2(n - 1)
  }

  /** A tree of height h has at least h and fewer than 2^h nodes. */
  lemma {:induction false} HeightBounds(t: Tree)
    ensures HeightOf(t) <= Count(t) < Pow2(HeightOf(t))
  {
    if t.Node? {
      HeightBounds(t.left);
      HeightBounds(t.right);
      var h := HeightOf(t) - 1;
      PowMono(HeightOf(t.left), h);
      PowMono(HeightOf(t.right), h);
    }
  }

  lemma {:induction false} PowMono(a: nat, b: nat)
    requires a <= b
    ensures Pow2(a) <= Pow2(b)
    decreases b
  {
    if a < b {
      PowMono(a, b - 1);
    }
  }

  /** The leftmost data of t: the data reached by following left children. */
  function Leftmost(t: Tree): int
    requires t.Node?
  {
    if t.left.Nil? then t.data else Leftmost(t.left)
  }

  /** In an ordered tree the leftmost data is its least element. */
  lemma {:induction false} LeftmostLeast(t: Tree)
    requires t.Node? && Ordered(t)
    ensures Leftmost(t) in Elems(t)
    ensures forall y :: y in Elems(t) ==> Leftmost(t) <= y
  {
    if t.left.Node? {
      LeftmostLeast(t.left);
    }
  }

  /** _find_min: the node reached by following left children from t. */
  method FindMin(t: Tree) returns (m: Tree)
    requires t.Node?
    ensures m.Node? && m.left.Nil? && m.data == Leftmost(t)
  {
    m := t;
    while m.left.Node?
      invariant m.Node? && Leftmost(m) == Leftmost(t)
      decreases m
    {
      m := m.left;
    }
  }

  /** _remove: elem's node is dropped.  A node with one child is replaced by that child;
      a node with two takes the least data of its right subtree, which is then removed
      from there.  Data not in t leaves it as it was. */
  method Delete(t: Tree, elem: int) returns (r: Tree)
    requires Ordered(t)
    ensures Ordered(r) && Elems(r) == Elems(t) - {elem}
    ensures HeightOf(r) <= HeightOf(t)
    decreases t
  {
    if t.Nil? {
      return Nil;
    }
    if elem < t.data {
      var left := Delete(t.left, elem);
      return Node(left, t.data, t.right);
    } else if elem > t.data {
      var right := Delete(t.right, elem);
      return Node(t.left, t.data, right);
    }
    if t.left.Nil? {
      return t.right;
    }
    if t.right.Nil? {
      return t.left;
    }
    var minNode := FindMin(t.right);
    LeftmostLeast(t.right);
    var right := Delete(t.right, minNode.data);
    return Node(t.left, minNode.data, right);
  }

  // ---------------------------------------------------------------- traversal bookkeeping

  /** What the in-order loop still owes for a stack of visited nodes, top last: each
      node's data and then its right subtree. */
  function Pending(stack: seq<Tree>): seq<int> {
    if stack == [] then []
    else
      var top := stack[|stack| - 1];
      (if top.Node? then [top.data] + InOrder(top.right) else []) + Pending(stack[..|stack| - 1])
  }

  /** The pre-order of the subtrees on a stack, top first. */
  function PreForest(stack: seq<Tree>): seq<int> {
    if stack == [] then [] else PreOrder(stack[|stack| - 1]) + PreForest(stack[..|stack| - 1])
  }

  /** Node, right subtree, left subtree: post-order reversed. */
  function RevPost(t: Tree): seq<int> {
    if t.Nil? then [] else [t.data] + RevPost(t.right) + RevPost(t.left)
  }

  /** RevPost of the subtrees on a stack, top first. */
  function RevForest(stack: seq<Tree>): seq<int> {
    if stack == [] then [] else RevPost(stack[|stack| - 1]) + RevForest(stack[..|stack| - 1])
  }

  /** A measure for the stack loops: a node counts two, every entry one. */
  function StackWeight(stack: seq<Tree>): nat {
    if stack == [] then 0 else 2 * Count(stack[|stack| - 1]) + 1 + StackWeight(stack[..|stack| - 1])
  }

  /** Pending of a stack with t pushed on top. */
  lemma PendingPush(stack: seq<Tree>, t: Tree)
    ensures Pending(stack + [t]) ==
            (if t.Node? then [t.data] + InOrder(t.right) else []) + Pending(stack)
  {
    assert (stack + [t])[..|stack|] == stack;
  }

  /** PreForest of a stack with t pushed on top. */
  lemma PreForestPush(stack: seq<Tree>, t: Tree)
    ensures PreForest(stack + [t]) == PreOrder(t) + PreForest(stack)
  {
    assert (stack + [t])[..|stack|] == stack;
  }

  /** RevForest of a stack with t pushed on top. */
  lemma RevForestPush(stack: seq<Tree>, t: Tree)
    ensures RevForest(stack + [t]) == RevPost(t) + RevForest(stack)
  {
    assert (stack + [t])[..|stack|] == stack;
  }

  /** StackWeight of a stack with t pushed on top. */
  lemma WeightPush(stack: seq<Tree>, t: Tree)
    ensures StackWeight(stack + [t]) == 2 * Count(t) + 1 + StackWeight(stack)
  {
    assert (stack + [t])[..|stack|] == stack;
  }

  /** Every entry is a node. */
  predicate AllNodes(ts: seq<Tree>) {
    forall i :: 0 <= i < |ts| ==> ts[i].Node?
  }

  /** The data of a sequence of nodes, in order. */
  function Datas(nodes: seq<Tree>): seq<int>
    requires AllNodes(nodes)
  {
    if nodes == [] then [] else Datas(nodes[..|nodes| - 1]) + [nodes[|nodes| - 1].data]
  }

  lemma DatasPush(nodes: seq<Tree>, t: Tree)
    requires AllNodes(nodes)
    requires t.Node?
    ensures AllNodes(nodes + [t]) && Datas(nodes + [t]) == Datas(nodes) + [t.data]
  {
    assert (nodes + [t])[..|nodes|] == nodes;
  }

  /** The data of the subtrees in a queue, as a multiset. */
  function ForestData(queue: seq<Tree>): multiset<int> {
    if queue == [] then multiset{} else multiset(InOrder(queue[0])) + ForestData(queue[1..])
  }

  /** A measure for the queue loop: a node counts two, every entry one. */
  function QueueWeight(queue: seq<Tree>): nat {
    if queue == [] then 0 else 2 * Count(queue[0]) + 1 + QueueWeight(queue[1..])
  }

  /** The queue functions on a queue with t appended at the back. */
  lemma {:induction false} QueueAppend(queue: seq<Tree>, t: Tree)
    ensures ForestData(queue + [t]) == ForestData(queue) + multiset(InOrder(t))
    ensures QueueWeight(queue + [t]) == QueueWeight(queue) + 2 * Count(t) + 1
    decreases |queue|
  {
    if queue != [] {
      assert (queue + [t])[1..] == queue[1..] + [t];
      QueueAppend(queue[1..], t);
    }
  }

  /** One step of the pre-order loop: the subtree popped from the top is replaced by its
      data and its children, right pushed first. */
  lemma PreOrderStep(result: seq<int>, rest: seq<Tree>, node: Tree)
    requires node.Node?
    ensures result + PreForest(rest + [node]) ==
            (result + [node.data]) + PreForest(rest + [node.right] + [node.left])
  {
    var l, r, d := node.left, node.right, node.data;
    var pl, pr, f := PreOrder(l), PreOrder(r), PreForest(rest);
    PreForestPush(rest, node);
    PreForestPush(rest, r);
    PreForestPush(rest + [r], l);
    ConcatAssoc(result, [d], pl + (pr + f));
    ConcatAssoc([d], pl, pr + f);
    ConcatAssoc([d] + pl, pr, f);
  }

  /** The pre-order loop's measure goes down at a node. */
  lemma PreOrderWeight(rest: seq<Tree>, node: Tree)
    requires node.Node?
    ensures StackWeight(rest + [node]) > StackWeight(rest + [node.right] + [node.left])
  {
    WeightPush(rest, node);
    WeightPush(rest, node.right);
    WeightPush(rest + [node.right], node.left);
  }

  /** One step of the first post-order loop: the subtree popped from the top moves to the
      second stack and is replaced by its children, left pushed first. */
  lemma PostOrderStep(stack2: seq<Tree>, rest: seq<Tree>, node: Tree)
    requires AllNodes(stack2)
    requires node.Node?
    ensures AllNodes(stack2 + [node])
    ensures Datas(stack2) + RevForest(rest + [node]) ==
            Datas(stack2 + [node]) + RevForest(rest + [node.left] + [node.right])
  {
    var l, r, d := node.left, node.right, node.data;
    var rr, rl, f, ds := RevPost(r), RevPost(l), RevForest(rest), Datas(stack2);
    RevForestPush(rest, node);
    RevForestPush(rest, l);
    RevForestPush(rest + [l], r);
    DatasPush(stack2, node);
    ConcatAssoc(ds, [d], rr + (rl + f));
    ConcatAssoc([d], rr, rl + f);
    ConcatAssoc([d] + rr, rl, f);
  }

  /** The first post-order loop's measure goes down at a node. */
  lemma PostOrderWeight(rest: seq<Tree>, node: Tree)
    requires node.Node?
    ensures StackWeight(rest + [node]) > StackWeight(rest + [node.left] + [node.right])
  {
    WeightPush(rest, node);
    WeightPush(rest, node.left);
    WeightPush(rest + [node.left], node.right);
  }

  /** The in-order loop descends: current goes on the stack and its left child is next. */
  lemma InOrderDescend(result: seq<int>, current: Tree, stack: seq<Tree>)
    requires current.Node?
    ensures result + InOrder(current) + Pending(stack) ==
            result + InOrder(current.left) + Pending(stack + [current])
  {
    var il, ir, p := InOrder(current.left), InOrder(current.right), Pending(stack);
    var x := [current.data] + ir;
    PendingPush(stack, current);
    ConcatAssoc(il, [current.data], ir);
    ConcatAssoc(result, il, x);
    ConcatAssoc(result + il, x, p);
  }

  /** The in-order loop visits the node on top of the stack and continues on its right. */
  lemma InOrderVisit(result: seq<int>, rest: seq<Tree>, node: Tree)
    requires node.Node?
    ensures result + InOrder(Nil) + Pending(rest + [node]) ==
            (result + [node.data]) + InOrder(node.right) + Pending(rest)
  {
    var ir, p := InOrder(node.right), Pending(rest);
    PendingPush(rest, node);
    assert result + InOrder(Nil) == result;
    ConcatAssoc(result, [node.data] + ir, p);
    ConcatAssoc(result, [node.data], ir);
  }

  /** The second post-order loop pops the top node's data. */
  lemma PostOrderPop(result: seq<int>, stack2: seq<Tree>)
    requires AllNodes(stack2)
    requires stack2 != []
    ensures AllNodes(stack2[..|stack2| - 1])
    ensures result + Reversed(Datas(stack2)) ==
            (result + [stack2[|stack2| - 1].data]) + Reversed(Datas(stack2[..|stack2| - 1]))
  {
    var rest := stack2[..|stack2| - 1];
    var d := stack2[|stack2| - 1].data;
    ReversedAppend(Datas(rest), [d]);
    assert Reversed([d]) == [d];
    ConcatAssoc(result, [d], Reversed(Datas(rest)));
  }

  /** The level-order loop takes a node from the front and queues its children. */
  lemma LevelOrderVisit(result: seq<int>, queue: seq<Tree>)
    requires queue != [] && queue[0].Node?
    ensures multiset(result) + ForestData(queue) ==
            multiset(result + [queue[0].data]) + ForestData(queue[1..] + [queue[0].left] + [queue[0].right])
    ensures QueueWeight(queue) > QueueWeight(queue[1..] + [queue[0].left] + [queue[0].right])
  {
    var node, rest := queue[0], queue[1..];
    var l, r, d := node.left, node.right, node.data;
    QueueAppend(rest, l);
    QueueAppend(rest + [l], r);
    assert multiset(InOrder(node)) ==
           multiset(InOrder(l)) + multiset{d} + multiset(InOrder(r)) by {
      assert InOrder(node) == InOrder(l) + [d] + InOrder(r);
    }
  }

  /** Post-order is RevPost read backwards. */
  lemma {:induction false} RevPostReversed(t: Tree)
    ensures Reversed(RevPost(t)) == PostOrder(t)
  {
    if t.Node? {
      RevPostReversed(t.left);
      RevPostReversed(t.right);
      ReversedAppend([t.data] + RevPost(t.right), RevPost(t.left));
      ReversedAppend([t.data], RevPost(t.right));
    }
  }

  lemma ReversedAppend(a: seq<int>, b: seq<int>)
    ensures Reversed(a + b) == Reversed(b) + Reversed(a)
  {
    assert forall k :: 0 <= k < |a + b| ==> Reversed(a + b)[k] == (Reversed(b) + Reversed(a))[k];
  }

  // ---------------------------------------------------------------- the tree object

  class BinarySearchTree {
    var nodeCount: nat
    var root: Tree

    ghost predicate Valid()
      reads this
    {
      Ordered(root) && nodeCount == Count(root)
    }

    /** __init__: an empty tree. */
    constructor ()
      ensures Valid() && root == Nil
    {
      nodeCount := 0;
      root := Nil;
    }

    /** size: the number of nodes. */
    method Size() returns (r: nat)
      requires Valid()
      ensures r == |Elems(root)|
    {
      SizeIsElems(root);
      return nodeCount;
    }

    /** is_empty: whether there are no nodes. */
    method IsEmpty() returns (r: bool)
      requires Valid()
      ensures r <==> Elems(root) == {}
    {
      var size := Size();
      return size == 0;
    }

    /** contains: whether elem is in the tree. */
    method Contains(elem: int) returns (r: bool)
      requires Valid()
      ensures r <==> elem in Elems(root)
    {
      return ContainsIn(root, elem);
    }

    /** add: false, changing nothing, when elem is present; otherwise elem goes in as a
        new leaf and the count grows by one. */
    method Add(elem: int) returns (r: bool)
      requires Valid()
      modifies this
      ensures Valid()
      ensures r <==> elem !in old(Elems(root))
      ensures root == if r then Insert(old(root), elem) else old(root)
      ensures Elems(root) == old(Elems(root)) + {elem}
      ensures nodeCount == old(nodeCount) + (if r then 1 else 0)
    {
      var present := Contains(elem);
      if present {
        return false;
      }
      root := Insert(root, elem);
      nodeCount := nodeCount + 1;
      return true;
    }

    /** remove: false, changing nothing, when elem is absent; otherwise elem is removed
        and the count drops by one. */
    method Remove(elem: int) returns (r: bool)
      requires Valid()
      modifies this
      ensures Valid()
      ensures r <==> elem in old(Elems(root))
      ensures !r ==> root == old(root)
      ensures Elems(root) == old(Elems(root)) - {elem}
      ensures nodeCount == old(nodeCount) - (if r then 1 else 0)
    {
      var present := Contains(elem);
      if present {
        SizeIsElems(root);
        root := Delete(root, elem);
        SizeIsElems(root);
        nodeCount := nodeCount - 1;
        return true;
      }
      return false;
    }

    /** height: the number of nodes on the longest path down from the root. */
    method Height() returns (r: nat)
      ensures r == HeightOf(root)
      ensures Count(root) < Pow2(r) && r <= Count(root)
    {
      HeightBounds(root);
      return HeightOf(root);
    }

    /** traverse: the data in the named order; an unknown order gives nothing. */
    method Traverse(order: string) returns (r: seq<int>)
      ensures order == "PRE_ORDER" ==> r == PreOrder(root)
      ensures order == "IN_ORDER" ==> r == InOrder(root)
      ensures order == "POST_ORDER" ==> r == PostOrder(root)
      ensures order == "LEVEL_ORDER" ==> multiset(r) == multiset(InOrder(root)) &&
                                         (root.Node? ==> r != [] && r[0] == root.data)
      ensures order !in {"PRE_ORDER", "IN_ORDER", "POST_ORDER", "LEVEL_ORDER"} ==> r == []
    {
      if order == "PRE_ORDER" {
        r := PreOrderTraversal();
      } else if order == "IN_ORDER" {
        r := InOrderTraversal();
      } else if order == "POST_ORDER" {
        r := PostOrderTraversal();
      } else if order == "LEVEL_ORDER" {
        r := LevelOrderTraversal();
      } else {
        r := [];
      }
    }

    /** _pre_order_traversal: pop a subtree; for a node, emit its data and push its right
        and then its left child. */
    method PreOrderTraversal() returns (result: seq<int>)
      ensures result == PreOrder(root)
    {
      var stack := [root];
      PreForestPush([], root);
      result := [];
      while stack != []
        invariant result + PreForest(stack) == PreOrder(root)
        decreases StackWeight(stack)
      {
        var node := stack[|stack| - 1];
        var rest := stack[..|stack| - 1];
        assert stack == rest + [node];
        if node.Node? {
          PreOrderStep(result, rest, node);
          PreOrderWeight(rest, node);
          result := result + [node.data];
          stack := rest + [node.right];
          stack := stack + [node.left];
        } else {
          PreForestPush(rest, node);
          WeightPush(rest, node);
          stack := rest;
        }
      }
    }

    /** _in_order_traversal: walk left pushing nodes; at the bottom pop one, emit its data
        and continue from its right child. */
    method InOrderTraversal() returns (result: seq<int>)
      ensures result == InOrder(root)
    {
      var stack: seq<Tree> := [];
      result := [];
      var current := root;
      while stack != [] || current.Node?
        invariant forall i :: 0 <= i < |stack| ==> stack[i].Node?
        invariant result + InOrder(current) + Pending(stack) == InOrder(root)
        decreases |InOrder(current)| + |Pending(stack)|, current
      {
        if current.Node? {
          InOrderDescend(result, current, stack);
          stack := stack + [current];
          current := current.left;
        } else {
          var node := stack[|stack| - 1];
          var rest := stack[..|stack| - 1];
          assert stack == rest + [node];
          InOrderVisit(result, rest, node);
          stack := rest;
          result := result + [node.data];
          current := node.right;
        }
      }
    }

    /** _post_order_traversal: the first loop moves nodes to a second stack, pushing each
        node's left and then right child; popping the second stack gives post-order. */
    method PostOrderTraversal() returns (result: seq<int>)
      ensures result == PostOrder(root)
    {
      var stack1 := [root];
      RevForestPush([], root);
      var stack2: seq<Tree> := [];
      while stack1 != []
        invariant AllNodes(stack2)
        invariant Datas(stack2) + RevForest(stack1) == RevPost(root)
        decreases StackWeight(stack1)
      {
        var node := stack1[|stack1| - 1];
        var rest := stack1[..|stack1| - 1];
        assert stack1 == rest + [node];
        if node.Node? {
          PostOrderStep(stack2, rest, node);
          PostOrderWeight(rest, node);
          stack2 := stack2 + [node];
          stack1 := rest + [node.left];
          stack1 := stack1 + [node.right];
        } else {
          RevForestPush(rest, node);
          WeightPush(rest, node);
          stack1 := rest;
        }
      }
      assert Datas(stack2) == RevPost(root);
      RevPostReversed(root);
      result := [];
      assert result + Reversed(Datas(stack2)) == PostOrder(root);
      while stack2 != []
        invariant AllNodes(stack2)
        invariant result + Reversed(Datas(stack2)) == PostOrder(root)
        decreases |stack2|
      {
        var node := stack2[|stack2| - 1];
        PostOrderPop(result, stack2);
        stack2 := stack2[..|stack2| - 1];
        result := result + [node.data];
      }
    }

    /** _level_order_traversal: take a subtree from the front of the queue; for a node,
        emit its data and queue its left and right children. */
    method LevelOrderTraversal() returns (result: seq<int>)
      ensures multiset(result) == multiset(InOrder(root))
      ensures root.Node? ==> result != [] && result[0] == root.data
    {
      var queue := [root];
      result := [];
      assert queue[1..] == [];
      while queue != []
        invariant multiset(result) + ForestData(queue) == multiset(InOrder(root))
        invariant root.Nil? ==> result == []
        invariant root.Node? ==> (result == [] && queue == [root]) ||
                                 (result != [] && result[0] == root.data)
        decreases QueueWeight(queue)
      {
        var node := queue[0];
        if node.Node? {
          LevelOrderVisit(result, queue);
        }
        queue := queue[1..];
        if node.Node? {
          result := result + [node.data];
          queue := queue + [node.left];
          queue := queue + [node.right];
        }
      }
    }
  }

  /** With distinct data, the node count is the number of distinct data. */
  lemma {:induction false} SizeIsElems(t: Tree)
    requires Ordered(t)
    ensures Count(t) == |Elems(t)|
  {
    if t.Node? {
      SizeIsElems(t.left);
      SizeIsElems(t.right);
      assert Elems(t.left) !! Elems(t.right) by {
        forall x | x in Elems(t.left) ensures x !in Elems(t.right) { }
      }
      assert t.data !in Elems(t.left) + Elems(t.right);
    }
  }

  /** An ordered tree holding exactly 5 and 15 lists them in that order. */
  lemma InOrderFiveFifteen(t: Tree)
    requires Ordered(t) && Elems(t) == {5, 15}
    ensures InOrder(t) == [5, 15]
  {
    InOrderIncreasing(t);
    InOrderElems(t);
    IncreasingUnique(InOrder(t), [5, 15]);
  }

  /** 10, 5 and 15 added to an empty tree: 10 at the root with 5 and 15 as its leaves. */
  method AddExample(bst: BinarySearchTree)
    requires bst.Valid() && bst.root == Nil
    modifies bst
    ensures bst.Valid() && bst.root == Node(Node(Nil, 5, Nil), 10, Node(Nil, 15, Nil))
  {
    var _ := bst.Add(10);
    var _ := bst.Add(5);
    var _ := bst.Add(15);
  }

  /** The example tree reads 5, 10, 15 in order and has height 2. */
  lemma ExampleShape(t: Tree)
    requires t == Node(Node(Nil, 5, Nil), 10, Node(Nil, 15, Nil))
    ensures InOrder(t) == [5, 10, 15] && HeightOf(t) == 2 && Elems(t) == {5, 10, 15}
  {
  }

  /** After 10 is removed from the example tree it is absent and the rest read 5, 15. */
  method RemoveExample(bst: BinarySearchTree) returns (has10: bool, after: seq<int>)
    requires bst.Valid() && Elems(bst.root) == {5, 10, 15}
    modifies bst
    ensures !has10 && after == [5, 15]
  {
    var _ := bst.Remove(10);
    has10 := bst.Contains(10);
    after := bst.Traverse("IN_ORDER");
    InOrderFiveFifteen(bst.root);
  }

  /** The example tree read in order, searched for 10 and measured. */
  method InspectExample(bst: BinarySearchTree) returns (before: seq<int>, had10: bool, height: nat)
    requires bst.Valid() && bst.root == Node(Node(Nil, 5, Nil), 10, Node(Nil, 15, Nil))
    ensures before == [5, 10, 15] && had10 && height == 2
  {
    ExampleShape(bst.root);
    before := bst.Traverse("IN_ORDER");
    had10 := bst.Contains(10);
    height := bst.Height();
  }

  /** The example run: 10, 5 and 15 added; in order they read 5, 10, 15, 10 is present and
      the height is 2; after 10 is removed it is absent and the rest read 5, 15. */
  method BinarySearchTreeExample()
    returns (before: seq<int>, had10: bool, height: nat, has10: bool, after: seq<int>)
    ensures before == [5, 10, 15] && had10 && height == 2
    ensures !has10 && after == [5, 15]
  {
    var bst := new BinarySearchTree();
    AddExample(bst);
    ExampleShape(bst.root);
    before, had10, height := InspectExample(bst);
    has10, after := RemoveExample(bst);
  }
}
