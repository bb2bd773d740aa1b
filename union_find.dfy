/**
 * UnionFind: disjoint sets over 0..size-1 in a parent array id and a size array sz, with
 * path compression in find and union by size in unify.
 *
 * Beside the two arrays the model keeps, as ghost state, the representative of every
 * element (roots) and a rank that strictly grows along every parent link (rank).  The
 * rank is what makes find's loops terminate; roots is the partition the arrays stand for.
 */
module UnionFind {
  import opened Common

  // ---------------------------------------------------------------- the forest

  /** Element i of the forest: its parent link goes to a strictly higher rank, it and its
      parent have the same root, its root is its own parent, and it is a root when it is its
      own parent. */
  ghost predicate NodeOk(ids: seq<int>, rank: seq<nat>, roots: seq<int>, i: int)
    requires |rank| == |ids| && |roots| == |ids| && 0 <= i < |ids|
    requires forall k :: 0 <= k < |ids| ==> 0 <= ids[k] < |ids| && 0 <= roots[k] < |ids|
  {
    (ids[i] != i ==> rank[i] < rank[ids[i]]) &&
    roots[ids[i]] == roots[i] && ids[roots[i]] == roots[i] &&
    (ids[i] == i ==> roots[i] == i)
  }

  /** The parent links in ids form a forest whose roots are given by roots, with every rank
      at most maxRank. */
  ghost predicate Forest(ids: seq<int>, rank: seq<nat>, roots: seq<int>, maxRank: nat) {
    |rank| == |ids| && |roots| == |ids| &&
    (forall k :: 0 <= k < |ids| ==> 0 <= ids[k] < |ids| && 0 <= roots[k] < |ids|) &&
    (forall k :: 0 <= k < |ids| ==> rank[k] <= maxRank) &&
    forall i :: 0 <= i < |ids| ==> NodeOk(ids, rank, roots, i)
  }

  /** The elements whose representative is r. */
  ghost function Members(roots: seq<int>, r: int): set<int> {
    set i | 0 <= i < |roots| && roots[i] == r
  }

  /** The elements that are their own parent. */
  ghost function Roots(ids: seq<int>): set<int> {
    set i | 0 <= i < |ids| && ids[i] == i
  }

  /** Every root's size entry counts its members. */
  ghost predicate SizesCounted(ids: seq<int>, roots: seq<int>, sizes: seq<int>) {
    |sizes| == |ids| &&
    forall r :: 0 <= r < |ids| && ids[r] == r ==> sizes[r] == |Members(roots, r)|
  }

  /** The whole invariant of the arrays: a forest, counted sizes, and the number of
      components equal to the number of roots. */
  ghost predicate Partition(ids: seq<int>, rank: seq<nat>, roots: seq<int>, maxRank: nat,
                            sizes: seq<int>, count: int) {
    Forest(ids, rank, roots, maxRank) && SizesCounted(ids, roots, sizes) && count == |Roots(ids)|
  }

  /** Following parent links from i only climbs in rank: the rank of i is at most that of
      its root, and strictly below it when i is not a root. */
  lemma {:induction false} RankBelowRoot(ids: seq<int>, rank: seq<nat>, roots: seq<int>, maxRank: nat, i: nat)
    requires Forest(ids, rank, roots, maxRank) && i < |ids|
    ensures rank[i] <= rank[roots[i]]
    ensures ids[i] != i ==> rank[i] < rank[roots[i]]
    decreases maxRank - rank[i]
  {
    assert NodeOk(ids, rank, roots, i);
    if ids[i] != i {
      RankBelowRoot(ids, rank, roots, maxRank, ids[i]);
    }
  }

  /** The elements find walks from i before it reaches the root: i, its parent, and so on,
      the root left out. */
  ghost function Path(ids: seq<int>, rank: seq<nat>, roots: seq<int>, maxRank: nat, i: nat): set<int>
    requires Forest(ids, rank, roots, maxRank) && i < |ids|
    decreases maxRank - rank[i]
  {
    assert NodeOk(ids, rank, roots, i);
    if ids[i] == i then {} else {i} + Path(ids, rank, roots, maxRank, ids[i])
  }

  /** Every element on the path from i lies in i's component, is no root, and ranks at
      least as high as i. */
  lemma {:induction false} PathFacts(ids: seq<int>, rank: seq<nat>, roots: seq<int>, maxRank: nat, i: nat)
    requires Forest(ids, rank, roots, maxRank) && i < |ids|
    ensures forall k :: k in Path(ids, rank, roots, maxRank, i) ==>
              0 <= k < |ids| && ids[k] != k && roots[k] == roots[i] && rank[i] <= rank[k]
    decreases maxRank - rank[i]
  {
    assert NodeOk(ids, rank, roots, i);
    if ids[i] != i {
      PathFacts(ids, rank, roots, maxRank, ids[i]);
    }
  }

  /** Pointing a non-root element p straight at its root keeps the forest, its roots and
      therefore the sizes and the number of components. */
  lemma Compress(ids: seq<int>, rank: seq<nat>, roots: seq<int>, maxRank: nat, sizes: seq<int>,
                 count: int, p: nat)
    requires Partition(ids, rank, roots, maxRank, sizes, count) && p < |ids| && ids[p] != p
    ensures Partition(ids[p := roots[p]], rank, roots, maxRank, sizes, count)
    ensures Roots(ids[p := roots[p]]) == Roots(ids)
  {
    RankBelowRoot(ids, rank, roots, maxRank, p);
    var ids' := ids[p := roots[p]];
    assert NodeOk(ids, rank, roots, p);
    forall i | 0 <= i < |ids|
      ensures NodeOk(ids', rank, roots, i)
    {
      assert NodeOk(ids, rank, roots, i);
      assert NodeOk(ids, rank, roots, roots[i]);
    }
    assert Roots(ids') == Roots(ids);
  }

  /** The representatives after root l is linked under root w: l's members join w. */
  ghost function Merge(roots: seq<int>, l: int, w: int): (r: seq<int>)
    ensures |r| == |roots|
  {
    seq(|roots|, i requires 0 <= i < |roots| => if roots[i] == l then w else roots[i])
  }

  /** Linking root l under root w keeps a forest, once w's rank is raised above l's; l is
      no longer a root. */
  lemma LinkForest(ids: seq<int>, rank: seq<nat>, roots: seq<int>, maxRank: nat, l: nat, w: nat)
    requires Forest(ids, rank, roots, maxRank) && l < |ids| && w < |ids| && l != w
    requires ids[l] == l && ids[w] == w
    ensures Forest(ids[l := w], rank[w := Max(rank[w], rank[l] + 1)], Merge(roots, l, w),
                   Max(maxRank, rank[l] + 1))
    ensures Roots(ids[l := w]) == Roots(ids) - {l}
  {
    var ids', rank', roots' := ids[l := w], rank[w := Max(rank[w], rank[l] + 1)], Merge(roots, l, w);
    assert NodeOk(ids, rank, roots, l) && NodeOk(ids, rank, roots, w);
    assert roots[l] == l && roots[w] == w;
    forall i | 0 <= i < |ids|
      ensures NodeOk(ids', rank', roots', i)
    {
      assert NodeOk(ids, rank, roots, i);
    }
  }

  /** Linking root l under root w, with w's size entry raised by l's, keeps the whole
      invariant with one component less. */
  lemma Link(ids: seq<int>, rank: seq<nat>, roots: seq<int>, maxRank: nat, sizes: seq<int>,
             count: int, l: nat, w: nat)
    requires Partition(ids, rank, roots, maxRank, sizes, count)
    requires l < |ids| && w < |ids| && l != w && ids[l] == l && ids[w] == w
    ensures Partition(ids[l := w], rank[w := Max(rank[w], rank[l] + 1)], Merge(roots, l, w),
                      Max(maxRank, rank[l] + 1), sizes[w := sizes[w] + sizes[l]], count - 1)
  {
    LinkForest(ids, rank, roots, maxRank, l, w);
    MergeMembers(roots, l, w);
    assert l in Roots(ids);
    var ids', roots', sizes' := ids[l := w], Merge(roots, l, w), sizes[w := sizes[w] + sizes[l]];
    forall r | 0 <= r < |ids'| && ids'[r] == r
      ensures sizes'[r] == |Members(roots', r)|
    {
    }
  }

  /** Merging l's members into w: w's members are the two old member sets, which are
      disjoint, l has none left, and every other representative keeps its members. */
  lemma MergeMembers(roots: seq<int>, l: int, w: int)
    requires l != w
    ensures Members(Merge(roots, l, w), w) == Members(roots, l) + Members(roots, w)
    ensures Members(roots, l) * Members(roots, w) == {}
    ensures |Members(Merge(roots, l, w), w)| == |Members(roots, l)| + |Members(roots, w)|
    ensures Members(Merge(roots, l, w), l) == {}
    ensures forall x :: x != l && x != w ==> Members(Merge(roots, l, w), x) == Members(roots, x)
  {
    var m := Merge(roots, l, w);
    assert Members(m, w) == Members(roots, l) + Members(roots, w);
    assert Members(roots, l) * Members(roots, w) == {};
  }

  /** The number of roots of n elements that are each their own parent is n. */
  lemma {:induction false} AllRoots(n: nat)
    ensures |Roots(seq(n, i => i))| == n
  {
    if n > 0 {
      AllRoots(n - 1);
      assert Roots(seq(n, i => i)) == Roots(seq(n - 1, i => i)) + {n - 1};
    }
  }

  /** There are no more roots than elements. */
  lemma {:induction false} RootsBound(ids: seq<int>)
    ensures |Roots(ids)| <= |ids|
  {
    if |ids| > 0 {
      var s := ids[..|ids| - 1];
      var last := if ids[|ids| - 1] == |ids| - 1 then {|ids| - 1} else {};
      RootsBound(s);
      assert Roots(ids) == Roots(s) + last;
      assert Roots(s) !! last;
    }
  }

  // ---------------------------------------------------------------- the class

  class UnionFind {
    const size: nat
    var numComponents: int
    /** sz[r]: the number of elements in the component of root r */
    const sz: array<int>
    /** id[i]: the parent of i; roots are their own parent */
    const id: array<int>
    /** the representative of every element */
    ghost var roots: seq<int>
    ghost var rank: seq<nat>
    ghost var maxRank: nat

    ghost predicate Valid()
      reads this, id, sz
    {
      id != sz && size > 0 && id.Length == size && sz.Length == size &&
      Partition(id[..], rank, roots, maxRank, sz[..], numComponents)
    }

    /** __init__ for size > 0 (New models the ValueError): every element alone. */
    constructor (size: nat)
      requires size > 0
      ensures Valid() && fresh(id) && fresh(sz)
      ensures this.size == size && numComponents == size
      ensures roots == seq(size, i => i) && sz[..] == seq(size, _ => 1)
    {
      this.size := size;
      numComponents := size;
      sz := new int[size](_ => 1);
      id := new int[size](i => i);
      roots := seq(size, i => i);
      rank := seq(size, _ => 0);
      maxRank := 0;
      new;
      assert id[..] == seq(size, i => i);
      AllRoots(size);
      forall r | 0 <= r < size
        ensures Members(roots, r) == {r}
      {
      }
    }

    /** find: the root of p.  Every element on the path from p now points straight at
        it, and every other parent link is as it was; the partition does not change. */
    method Find(p: nat) returns (r: nat)
      requires Valid() && p < size
      modifies id
      ensures Valid() && r < size && r == roots[p] && id[r] == r
      ensures forall i :: 0 <= i < size && i in Path(old(id[..]), rank, roots, maxRank, p) ==> id[i] == r
      ensures forall i :: 0 <= i < size && i !in Path(old(id[..]), rank, roots, maxRank, p) ==>
                id[i] == old(id[i])
      ensures forall i :: 0 <= i < size ==> (id[i] == i <==> old(id[i]) == i)
    {
      ghost var ids0 := id[..];
      var root := p;
      while root != id[root]
        invariant 0 <= root < size && roots[root] == roots[p]
        decreases maxRank - rank[root]
      {
        assert NodeOk(id[..], rank, roots, root);
        root := id[root];
      }
      assert NodeOk(id[..], rank, roots, root);
      PathFacts(ids0, rank, roots, maxRank, p);
      ghost var onPath := Path(ids0, rank, roots, maxRank, p);
      ghost var ahead := onPath;
      var cur := p;
      while cur != root
        invariant Partition(id[..], rank, roots, maxRank, sz[..], numComponents)
        invariant 0 <= cur < size && roots[cur] == root
        invariant ahead == Path(ids0, rank, roots, maxRank, cur) && ahead <= onPath
        invariant forall i :: 0 <= i < size && i in ahead ==> id[i] == ids0[i]
        invariant forall i :: 0 <= i < size && i in onPath && i !in ahead ==> id[i] == root
        invariant forall i :: 0 <= i < size && i !in onPath ==> id[i] == ids0[i]
        invariant forall i :: 0 <= i < size ==> (id[i] == i <==> ids0[i] == i)
        invariant sz[..] == old(sz[..])
        decreases maxRank - rank[cur]
      {
        var next := id[cur];
        ghost var ids := id[..];
        assert NodeOk(ids, rank, roots, cur);
        assert NodeOk(ids0, rank, roots, cur);
        ghost var rest := Path(ids0, rank, roots, maxRank, next);
        assert ahead == {cur} + rest;
        PathFacts(ids0, rank, roots, maxRank, next);
        assert cur !in rest;
        Compress(ids, rank, roots, maxRank, sz[..], numComponents, cur);
        id[cur] := root;
        assert id[..] == ids[cur := root];
        cur := next;
        ahead := rest;
      }
      assert ahead == {} by {
        assert NodeOk(ids0, rank, roots, cur);
      }
      return root;
    }

    /** connected: p and q have the same representative. */
    method Connected(p: nat, q: nat) returns (r: bool)
      requires Valid() && p < size && q < size
      modifies id
      ensures Valid() && roots == old(roots) && numComponents == old(numComponents)
      ensures r <==> roots[p] == roots[q]
    {
      var rp := Find(p);
      var rq := Find(q);
      r := rp == rq;
    }

    /** component_size: the number of elements in p's component. */
    method ComponentSize(p: nat) returns (r: int)
      requires Valid() && p < size
      modifies id
      ensures Valid() && roots == old(roots) && numComponents == old(numComponents)
      ensures r == sz[roots[p]] == |Members(roots, roots[p])|
    {
      var root := Find(p);
      r := sz[root];
    }

    /** size() as written: __init__ stores the element count in the instance attribute
        size, which hides the method of that name, so calling it applies an int and raises
        TypeError. */
    method Size() returns (r: Result<nat>)
      ensures r.Err? && r.error == TypeError
    {
      return Err(TypeError);
    }

    /** size() as evidently intended: the number of elements, each one of them in exactly
        one component. */
    method SizeFixed() returns (r: nat)
      requires Valid()
      ensures r == id.Length && numComponents <= r
    {
      RootsBound(id[..]);
      r := size;
    }

    /** components: the number of roots. */
    method Components() returns (r: int)
      requires Valid()
      ensures r == |Roots(id[..])|
    {
      r := numComponents;
    }

    /** unify: nothing but path compression when p and q are already connected; otherwise
        the root of the smaller component (the root of q's on a tie) goes under the other,
        whose size becomes the sum, and there is one component less. */
    method Unify(p: nat, q: nat)
      requires Valid() && p < size && q < size
      modifies this, id, sz
      ensures Valid() && roots[p] == roots[q]
      ensures old(roots[p] == roots[q]) ==>
        roots == old(roots) && numComponents == old(numComponents) && sz[..] == old(sz[..])
      ensures old(roots[p] != roots[q]) ==>
        var r1, r2 := old(roots[p]), old(roots[q]);
        var (l, w) := if old(sz[r1] < sz[r2]) then (r1, r2) else (r2, r1);
        roots == Merge(old(roots), l, w) && sz[w] == old(sz[w] + sz[l]) &&
        (forall k :: 0 <= k < size && k != w ==> sz[k] == old(sz[k])) &&
        numComponents == old(numComponents) - 1 && id[l] == w
    {
      var root1 := Find(p);
      var root2 := Find(q);
      if root1 == root2 {
        return;
      }
      if sz[root1] < sz[root2] {
        LinkRoots(root1, root2);
      } else {
        LinkRoots(root2, root1);
      }
    }

    /** The branches of unify: root l goes under root w, whose size grows by l's. */
    method LinkRoots(l: nat, w: nat)
      requires Valid() && l < size && w < size && l != w && id[l] == l && id[w] == w
      modifies this, id, sz
      ensures Valid() && roots == Merge(old(roots), l, w) && id[l] == w
      ensures sz[w] == old(sz[w] + sz[l])
      ensures forall k :: 0 <= k < size && k != w ==> sz[k] == old(sz[k])
      ensures numComponents == old(numComponents) - 1
    {
      ghost var ids, sizes, c := id[..], sz[..], numComponents;
      ghost var rk, rts, mr := rank, roots, maxRank;
      sz[w] := sz[w] + sz[l];
      id[l] := w;
      numComponents := numComponents - 1;
      rank := rank[w := Max(rank[w], rank[l] + 1)];
      maxRank := Max(maxRank, rank[l] + 1);
      roots := Merge(roots, l, w);
      assert sz[..] == sizes[w := sizes[w] + sizes[l]] by {
        assert forall k :: 0 <= k < size ==> sz[k] == sizes[w := sizes[w] + sizes[l]][k];
      }
      assert id[..] == ids[l := w];
      Link(ids, rk, rts, mr, sizes, c, l, w);
    }
  }

  /** __init__: a size of at most 0 raises ValueError. */
  method New(size: int) returns (r: Result<UnionFind>)
    ensures size <= 0 <==> r.Err?
    ensures r.Err? ==> r.error == ValueError
    ensures r.Ok? ==> (fresh(r.value) && r.value.Valid() && r.value.size == size &&
                       r.value.numComponents == size && r.value.roots == seq(size, i => i))
  {
    if size <= 0 {
      return Err(ValueError);
    }
    var u := new UnionFind(size);
    return Ok(u);
  }
}
