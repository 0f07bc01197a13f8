/** The branch-and-bound tree, kept as an arena: node k of the search is
    `nodes[k]`, and parent and child links are indices. Children are always
    created after their parent, so a child's index exceeds its parent's, and
    the two children of a node are created together, left (fix to 1) first.

    This module holds the node record, the shape invariant of the arena, the
    ancestor relation, the bound propagation performed by `update_UB` and the
    variable fixes that a node's ancestor chain imposes. */
module SearchTree {
  import opened Recoloring

  /** One node of the search: the variable it fixes relative to its parent,
      the direction of the fix, the links, and its bound `ub`. */
  datatype BBNode = BBNode(varToFix: (int, int), fix1: bool, parent: Option<nat>,
                           leftChild: Option<nat>, rightChild: Option<nat>, ub: real)

  /** The placeholder variable of the root node, which fixes nothing. */
  const RootVar: (int, int) := (-1, -1)

  function Min(a: real, b: real): real
  {
    if a <= b then a else b
  }

  predicate HasChildren(n: BBNode)
  {
    n.leftChild.Some? && n.rightChild.Some?
  }

  /** The child links of node `i` are consistent: both or neither exist, the
      right child directly follows the left one, both come after `i`, point
      back to `i`, and fix the same variable to 1 (left) and to 0 (right). */
  predicate ChildrenOk(nodes: seq<BBNode>, i: nat)
    requires i < |nodes|
  {
    var n := nodes[i];
    (n.leftChild.None? <==> n.rightChild.None?) &&
    (n.leftChild.Some? ==>
       var l := n.leftChild.value;
       i < l && l + 1 < |nodes| && n.rightChild == Some(l + 1) &&
       nodes[l].parent == Some(i) && nodes[l + 1].parent == Some(i) &&
       nodes[l].fix1 && !nodes[l + 1].fix1 &&
       nodes[l].varToFix == nodes[l + 1].varToFix)
  }

  /** Node 0 is the root, with no parent and the placeholder variable; every
      other node has an earlier parent that lists it as a child, and fixes a
      variable of the nVertices x nCores grid. */
  predicate ParentOk(nodes: seq<BBNode>, i: nat, nVertices: int, nCores: int)
    requires i < |nodes|
  {
    if i == 0 then nodes[0].parent.None? && nodes[0].varToFix == RootVar
    else
      nodes[i].parent.Some? && nodes[i].parent.value < i &&
      (nodes[nodes[i].parent.value].leftChild == Some(i) ||
       nodes[nodes[i].parent.value].rightChild == Some(i)) &&
      0 <= nodes[i].varToFix.0 < nVertices && 0 <= nodes[i].varToFix.1 < nCores
  }

  /** Only the child links, which is all that bound propagation needs. */
  predicate Linked(nodes: seq<BBNode>)
  {
    forall i :: 0 <= i < |nodes| ==> ChildrenOk(nodes, i)
  }

  predicate TreeValid(nodes: seq<BBNode>, nVertices: int, nCores: int)
  {
    |nodes| >= 1 && Linked(nodes) &&
    forall i :: 0 <= i < |nodes| ==> ParentOk(nodes, i, nVertices, nCores)
  }

  /** Everything but the bound. */
  function Shape(n: BBNode): BBNode
  {
    n.(ub := 0.0)
  }

  predicate SameShape(a: seq<BBNode>, b: seq<BBNode>)
  {
    |a| == |b| && forall i :: 0 <= i < |a| ==> Shape(a[i]) == Shape(b[i])
  }

  lemma SameShapeKeepsTree(a: seq<BBNode>, b: seq<BBNode>, nVertices: int, nCores: int)
    requires SameShape(a, b)
    ensures Linked(a) ==> Linked(b)
    ensures TreeValid(a, nVertices, nCores) ==> TreeValid(b, nVertices, nCores)
  {
    forall i | 0 <= i < |a|
      ensures a[i].parent == b[i].parent && a[i].leftChild == b[i].leftChild
      ensures a[i].rightChild == b[i].rightChild && a[i].fix1 == b[i].fix1
      ensures a[i].varToFix == b[i].varToFix
    {
      assert Shape(a[i]) == Shape(b[i]);
    }
    forall i | 0 <= i < |a|
      ensures ChildrenOk(a, i) ==> ChildrenOk(b, i)
      ensures ParentOk(a, i, nVertices, nCores) ==> ParentOk(b, i, nVertices, nCores)
    {
    }
  }

  // ---------------------------------------------------------------------
  // The ancestor relation
  // ---------------------------------------------------------------------

  /** `a` is `m` or an ancestor of `m`, following parent links downwards in
      index. */
  predicate Under(nodes: seq<BBNode>, m: nat, a: nat)
    decreases m
  {
    m < |nodes| &&
    (m == a ||
     (nodes[m].parent.Some? && nodes[m].parent.value < m && Under(nodes, nodes[m].parent.value, a)))
  }

  lemma {:induction false} UnderBelow(nodes: seq<BBNode>, m: nat, a: nat)
    requires Under(nodes, m, a)
    ensures a <= m
    decreases m
  {
    if m != a {
      UnderBelow(nodes, nodes[m].parent.value, a);
    }
  }

  lemma {:induction false} UnderTrans(nodes: seq<BBNode>, m: nat, b: nat, a: nat)
    requires Under(nodes, m, b) && Under(nodes, b, a)
    ensures Under(nodes, m, a)
    decreases m
  {
    if m != b {
      UnderTrans(nodes, nodes[m].parent.value, b, a);
    }
  }

  lemma {:induction false} UnderShape(a: seq<BBNode>, b: seq<BBNode>, m: nat, x: nat)
    requires SameShape(a, b)
    ensures Under(a, m, x) <==> Under(b, m, x)
    decreases m
  {
    if m < |a| {
      assert Shape(a[m]) == Shape(b[m]);
      if a[m].parent.Some? && a[m].parent.value < m {
        UnderShape(a, b, a[m].parent.value, x);
      }
    }
  }

  /** Two ancestors of one node lie on one chain: the lower-indexed one is an
      ancestor of the other. */
  lemma {:induction false} AncestorsOrdered(nodes: seq<BBNode>, m: nat, a: nat, b: nat)
    requires Under(nodes, m, a) && Under(nodes, m, b) && a <= b
    ensures Under(nodes, b, a)
    decreases m
  {
    if m == b {
    } else if m == a {
      UnderBelow(nodes, nodes[m].parent.value, b);
    } else {
      AncestorsOrdered(nodes, nodes[m].parent.value, a, b);
    }
  }

  /** The subtrees of the two children of a node are disjoint. */
  lemma SiblingsDisjoint(nodes: seq<BBNode>, n: nat, m: nat)
    requires Linked(nodes) && n < |nodes| && HasChildren(nodes[n])
    ensures !(Under(nodes, m, nodes[n].leftChild.value) && Under(nodes, m, nodes[n].rightChild.value))
  {
    assert ChildrenOk(nodes, n);
    var l, r := nodes[n].leftChild.value, nodes[n].rightChild.value;
    if Under(nodes, m, l) && Under(nodes, m, r) {
      AncestorsOrdered(nodes, m, l, r);
      assert Under(nodes, n, l);
      UnderBelow(nodes, n, l);
      assert false;
    }
  }

  /** A proper descendant of a node lies under one of its two children. */
  lemma {:induction false} DescendantUnderChild(nodes: seq<BBNode>, nVertices: int, nCores: int, n: nat, m: nat)
    requires TreeValid(nodes, nVertices, nCores) && n < |nodes|
    requires Under(nodes, m, n) && m != n
    ensures HasChildren(nodes[n])
    ensures Under(nodes, m, nodes[n].leftChild.value) || Under(nodes, m, nodes[n].rightChild.value)
    decreases m
  {
    var p := nodes[m].parent.value;
    assert ParentOk(nodes, m, nVertices, nCores) && ChildrenOk(nodes, n);
    if p != n {
      DescendantUnderChild(nodes, nVertices, nCores, n, p);
      var c := if Under(nodes, p, nodes[n].leftChild.value) then nodes[n].leftChild.value
               else nodes[n].rightChild.value;
      UnderTrans(nodes, m, p, c);
    }
  }

  /** Every node of a valid arena descends from the root. */
  lemma {:induction false} EveryNodeUnderRoot(nodes: seq<BBNode>, nVertices: int, nCores: int, m: nat)
    requires TreeValid(nodes, nVertices, nCores) && m < |nodes|
    ensures Under(nodes, m, 0)
    decreases m
  {
    assert ParentOk(nodes, m, nVertices, nCores);
    if m != 0 {
      EveryNodeUnderRoot(nodes, nVertices, nCores, nodes[m].parent.value);
    }
  }

  // ---------------------------------------------------------------------
  // Bound propagation (update_UB)
  // ---------------------------------------------------------------------

  /** The arena after `update_UB(n)`: a node without both children keeps its
      bound; a node with both first propagates into the left subtree, then the
      right one, and takes the smaller of the two children's new bounds. */
  function Propagate(nodes: seq<BBNode>, n: nat): (s: seq<BBNode>)
    requires Linked(nodes) && n < |nodes|
    ensures SameShape(nodes, s) && Linked(s)
    decreases |nodes| - n
  {
    if !HasChildren(nodes[n]) then nodes
    else
      assert ChildrenOk(nodes, n);
      var l, r := nodes[n].leftChild.value, nodes[n].rightChild.value;
      var s1 := Propagate(nodes, l);
      var s2 := Propagate(s1, r);
      var s := s2[n := s2[n].(ub := Min(s1[l].ub, s2[r].ub))];
      assert Shape(s[n]) == Shape(s2[n]);
      assert SameShape(nodes, s) by {
        forall i | 0 <= i < |nodes| ensures Shape(nodes[i]) == Shape(s[i]) {
          assert Shape(nodes[i]) == Shape(s1[i]) == Shape(s2[i]);
        }
      }
      SameShapeKeepsTree(nodes, s, 0, 0);
      s
  }

  /** Every node under `n` with both children carries the smaller of its
      children's bounds. */
  predicate Settled(nodes: seq<BBNode>, n: nat)
    requires Linked(nodes)
  {
    forall m :: 0 <= m < |nodes| && Under(nodes, m, n) && HasChildren(nodes[m]) ==>
      assert ChildrenOk(nodes, m);
      nodes[m].ub == Min(nodes[nodes[m].leftChild.value].ub, nodes[nodes[m].rightChild.value].ub)
  }

  /** Propagation from `n` touches only nodes under `n` that have both
      children, and only their bounds. */
  lemma {:induction false} PropagateFrame(nodes: seq<BBNode>, n: nat, m: nat)
    requires Linked(nodes) && n < |nodes| && m < |nodes|
    requires !Under(nodes, m, n) || !HasChildren(nodes[m])
    ensures Propagate(nodes, n)[m] == nodes[m]
    decreases |nodes| - n
  {
    if HasChildren(nodes[n]) {
      assert ChildrenOk(nodes, n);
      var l, r := nodes[n].leftChild.value, nodes[n].rightChild.value;
      var s1 := Propagate(nodes, l);
      if Under(nodes, m, l) {
        UnderTrans(nodes, m, l, n);
      }
      PropagateFrame(nodes, l, m);
      UnderShape(nodes, s1, m, r);
      UnderShape(nodes, s1, m, n);
      assert Shape(nodes[m]) == Shape(s1[m]);
      if Under(s1, m, r) {
        UnderShape(nodes, s1, r, n);
        UnderTrans(s1, m, r, n);
      }
      PropagateFrame(s1, r, m);
    }
  }

  /** After propagation from `n`, every node under `n` is settled. */
  lemma {:induction false} PropagateSettles(nodes: seq<BBNode>, nVertices: int, nCores: int, n: nat)
    requires TreeValid(nodes, nVertices, nCores) && n < |nodes|
    ensures Linked(nodes)
    ensures Settled(Propagate(nodes, n), n)
    decreases |nodes| - n
  {
        var s := Propagate(nodes, n);
    if !HasChildren(nodes[n]) {
      forall m: nat | Under(s, m, n) && HasChildren(s[m])
        ensures false
      {
        DescendantUnderChild(nodes, nVertices, nCores, n, m);
      }
    } else {
      assert ChildrenOk(nodes, n);
      var l, r := nodes[n].leftChild.value, nodes[n].rightChild.value;
      var s1 := Propagate(nodes, l);
      var s2 := Propagate(s1, r);
      SameShapeKeepsTree(nodes, s1, nVertices, nCores);
      PropagateSettles(nodes, nVertices, nCores, l);
      PropagateSettles(s1, nVertices, nCores, r);
      forall m: nat | Under(s, m, n) && HasChildren(s[m]) && ChildrenOk(s, m)
        ensures s[m].ub == Min(s[s[m].leftChild.value].ub, s[s[m].rightChild.value].ub)
      {
        assert ChildrenOk(s, m);
        UnderShape(nodes, s, m, n);
        if m == n {
          SiblingsDisjoint(nodes, n, l);
          UnderShape(nodes, s1, l, r);
          PropagateFrame(s1, r, l);
        } else {
          DescendantUnderChild(nodes, nVertices, nCores, n, m);
          assert Shape(nodes[m]) == Shape(s[m]);
          var ml, mr := nodes[m].leftChild.value, nodes[m].rightChild.value;
          assert ChildrenOk(nodes, m);
          assert Under(nodes, ml, m) && Under(nodes, mr, m);
          UnderBelow(nodes, m, n);
          if Under(nodes, m, l) {
            UnderTrans(nodes, ml, m, l);
            UnderTrans(nodes, mr, m, l);
            UnderShape(nodes, s1, m, l);
            assert Shape(nodes[m]) == Shape(s1[m]);
            SiblingsDisjoint(nodes, n, m);
            SiblingsDisjoint(nodes, n, ml);
            SiblingsDisjoint(nodes, n, mr);
            UnderShape(nodes, s1, m, r);
            UnderShape(nodes, s1, ml, r);
            UnderShape(nodes, s1, mr, r);
            PropagateFrame(s1, r, m);
            PropagateFrame(s1, r, ml);
            PropagateFrame(s1, r, mr);
            UnderBelow(nodes, ml, l);
            UnderBelow(nodes, mr, l);
          } else {
            UnderShape(nodes, s2, m, r);
            assert Shape(nodes[m]) == Shape(s2[m]);
            UnderTrans(nodes, ml, m, r);
            UnderTrans(nodes, mr, m, r);
            UnderBelow(nodes, ml, r);
            UnderBelow(nodes, mr, r);
          }
        }
      }
    }
  }

  /** Propagating over a settled subtree changes nothing; in particular a
      second propagation from the same node is a no-op. */
  lemma {:induction false} PropagateIdempotent(nodes: seq<BBNode>, n: nat)
    requires Linked(nodes) && n < |nodes| && Settled(nodes, n)
    ensures Propagate(nodes, n) == nodes
    decreases |nodes| - n
  {
    if HasChildren(nodes[n]) {
      assert ChildrenOk(nodes, n);
      var l, r := nodes[n].leftChild.value, nodes[n].rightChild.value;
      assert Under(nodes, l, n) && Under(nodes, r, n);
      forall m | Under(nodes, m, l) ensures Under(nodes, m, n) {
        UnderTrans(nodes, m, l, n);
      }
      forall m | Under(nodes, m, r) ensures Under(nodes, m, n) {
        UnderTrans(nodes, m, r, n);
      }
      PropagateIdempotent(nodes, l);
      PropagateIdempotent(nodes, r);
      assert nodes[n].ub == Min(nodes[l].ub, nodes[r].ub);
    }
  }

  /** Propagation from the root settles every node of the arena: each node
      with both children ends with the smaller of its children's bounds, and
      nodes without both children keep their bounds. */
  lemma PropagateFromRoot(nodes: seq<BBNode>, nVertices: int, nCores: int)
    requires TreeValid(nodes, nVertices, nCores)
    ensures Linked(nodes)
    ensures var s := Propagate(nodes, 0);
      TreeValid(s, nVertices, nCores) &&
      (forall m :: 0 <= m < |s| && HasChildren(s[m]) ==>
         assert ChildrenOk(s, m);
         s[m].ub == Min(s[s[m].leftChild.value].ub, s[s[m].rightChild.value].ub)) &&
      (forall m :: 0 <= m < |s| && !HasChildren(nodes[m]) ==> s[m] == nodes[m]) &&
      Propagate(s, 0) == s
  {
    PropagateSettles(nodes, nVertices, nCores, 0);
    var s := Propagate(nodes, 0);
    SameShapeKeepsTree(nodes, s, nVertices, nCores);
    forall m | 0 <= m < |s| ensures Under(s, m, 0) {
      EveryNodeUnderRoot(s, nVertices, nCores, m);
    }
    forall m | 0 <= m < |s| && !HasChildren(nodes[m]) ensures s[m] == nodes[m] {
      PropagateFrame(nodes, 0, m);
    }
    PropagateIdempotent(s, 0);
  }

  // ---------------------------------------------------------------------
  // Variable fixes along the ancestor chain
  // ---------------------------------------------------------------------

  /** Some non-root node on the chain from `n` up to the root fixes variable
      `v` in direction `toOne`. Parents precede their children in the arena,
      so such a node is never stored after `n`. */
  predicate FixedOnChain(nodes: seq<BBNode>, n: nat, v: (int, int), toOne: bool): (r: bool)
    ensures r ==> exists a: nat :: a <= n && a < |nodes| && nodes[a].parent.Some? &&
                                   nodes[a].varToFix == v && nodes[a].fix1 == toOne
    decreases n
  {
    n < |nodes| && nodes[n].parent.Some? && nodes[n].parent.value < n &&
    ((nodes[n].varToFix == v && nodes[n].fix1 == toOne) ||
     FixedOnChain(nodes, nodes[n].parent.value, v, toOne))
  }

  /** The chain walk agrees with the ancestor relation: a variable is fixed
      on the chain exactly when some non-root ancestor-or-self fixes it. The
      root is excluded, so its placeholder variable is never fixed. */
  lemma {:induction false} FixedOnChainIff(nodes: seq<BBNode>, nVertices: int, nCores: int,
                                           n: nat, v: (int, int), toOne: bool)
    requires TreeValid(nodes, nVertices, nCores) && n < |nodes|
    ensures FixedOnChain(nodes, n, v, toOne) <==>
      exists a: nat :: a < |nodes| && Under(nodes, n, a) && nodes[a].parent.Some? &&
                       nodes[a].varToFix == v && nodes[a].fix1 == toOne
    decreases n
  {
    assert ParentOk(nodes, n, nVertices, nCores);
    if n != 0 {
      var p := nodes[n].parent.value;
      FixedOnChainIff(nodes, nVertices, nCores, p, v, toOne);
      if FixedOnChain(nodes, n, v, toOne) {
        if nodes[n].varToFix == v && nodes[n].fix1 == toOne {
          assert Under(nodes, n, n);
        } else {
          var a: nat :| a < |nodes| && Under(nodes, p, a) && nodes[a].parent.Some? &&
                        nodes[a].varToFix == v && nodes[a].fix1 == toOne;
          assert Under(nodes, n, a);
        }
      }
    }
  }
}
