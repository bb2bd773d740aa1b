/**
 * The example run of the union-find: ten elements, 1-2 and 2-3 joined, then 4-5.
 */
module UnionFindExamples {
  import opened UnionFind

  /** Joining 1-2 and then 2-3 in ten singletons leaves 1, 2 and 3 under root 1. */
  method JoinOneTwoThree(uf: UnionFind)
    requires uf.Valid() && uf.size == 10 && uf.numComponents == 10
    requires uf.roots == seq(10, i => i) && uf.sz[..] == seq(10, _ => 1)
    modifies uf, uf.id, uf.sz
    ensures uf.Valid() && uf.size == 10 && uf.numComponents == 8
    ensures uf.roots[1] == uf.roots[3] == 1 && uf.sz[1] == 3
    ensures uf.roots[4] == 4 && uf.roots[5] == 5 && uf.sz[4] == 1 && uf.sz[5] == 1
  {
    assert uf.sz[1] == 1 && uf.sz[2] == 1;
    uf.Unify(1, 2);
    assert uf.roots[2] == 1 && uf.roots[3] == 3 && uf.sz[3] == 1;
    uf.Unify(2, 3);
  }

  /** Joining 1-2 and 2-3 leaves 1 and 3 connected in a component of 3 and 8 components;
      joining 4-5 then leaves 4 and 5 connected in a component of 2. */
  method UnionFindExample() returns (c13: bool, size1: int, comps: int, c45: bool, size4: int)
    ensures c13 && size1 == 3 && comps == 8
    ensures c45 && size4 == 2
  {
    var uf := new UnionFind(10);
    JoinOneTwoThree(uf);
    c13 := uf.Connected(1, 3);
    size1 := uf.ComponentSize(1);
    comps := uf.Components();
    uf.Unify(4, 5);
    c45 := uf.Connected(4, 5);
    size4 := uf.ComponentSize(4);
  }
}
