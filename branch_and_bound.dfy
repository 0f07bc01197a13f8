/** The branch-and-bound engine. The search keeps the node arena, the list
    `open` of nodes still to be solved (L in the source), the incumbent value
    `z` and the incumbent grid `bestSol`, which is the very array the
    heuristic filled. The linear-relaxation solver is an oracle: given the
    current lower and upper bounds of the variables it returns a status, an
    objective value and a solution grid. The wall-clock time limit is an
    iteration budget. */
module BranchAndBound {
  import opened Recoloring
  import opened SearchTree
  import opened Relaxation

  /** What the relaxation solver reports. */
  datatype LPAnswer = LPAnswer(status: int, objVal: real, x: seq<seq<real>>)

  /** The solver status of an infeasible relaxation. */
  const Infeasible: int := 3

  /** The relaxation solver: lower bounds and upper bounds in, answer out. */
  type LPOracle = (seq<seq<int>>, seq<seq<int>>) -> LPAnswer

  /** The initial bound of the root node, int.MaxValue. */
  const RootBound: real := 2147483647.0

  /** How one pass of the main loop ends. */
  datatype StepOutcome = NoNodeSelected | DroppedInfeasible | PrunedByBound | NewIncumbent | Branched

  /** How the whole search ends. */
  datatype RunOutcome = FrontierEmpty | RootBoundReached | TimeLimit | NoNodeToSelect

  /** The solver always answers with a grid of the model's shape. */
  ghost predicate OracleShaped(oracle: LPOracle, nVertices: nat, nCores: nat)
  {
    forall lo, up :: Shaped(oracle(lo, up).x, nVertices, nCores)
  }

  // ---------------------------------------------------------------------
  // The open list
  // ---------------------------------------------------------------------

  /** The open list names distinct nodes of the arena, none of them split. */
  predicate OpenValid(nodes: seq<BBNode>, open: seq<nat>)
  {
    (forall k :: 0 <= k < |open| ==> open[k] < |nodes| && !HasChildren(nodes[open[k]])) &&
    (forall k, k' :: 0 <= k < k' < |open| ==> open[k] != open[k'])
  }

  function Removed(open: seq<nat>, pos: nat): seq<nat>
    requires pos < |open|
  {
    open[..pos] + open[pos + 1..]
  }

  /** Position `pos` of the open list holds the node `select_BB_node` takes:
      the first one whose bound is positive and strictly above every bound
      before it and at least every bound after it. */
  predicate SelectedAt(nodes: seq<BBNode>, open: seq<nat>, pos: nat)
    requires forall k :: 0 <= k < |open| ==> open[k] < |nodes|
  {
    pos < |open| && nodes[open[pos]].ub > 0.0 &&
    (forall k :: 0 <= k < |open| ==> nodes[open[k]].ub <= nodes[open[pos]].ub) &&
    (forall k :: 0 <= k < pos ==> nodes[open[k]].ub < nodes[open[pos]].ub)
  }

  /** No open node has a positive bound, so nothing can be selected. */
  predicate NoPositiveBound(nodes: seq<BBNode>, open: seq<nat>)
    requires forall k :: 0 <= k < |open| ==> open[k] < |nodes|
  {
    forall k :: 0 <= k < |open| ==> nodes[open[k]].ub <= 0.0
  }

  /** The selection is determined by the list: at most one position qualifies. */
  lemma SelectedAtUnique(nodes: seq<BBNode>, open: seq<nat>, p: nat, q: nat)
    requires forall k :: 0 <= k < |open| ==> open[k] < |nodes|
    requires SelectedAt(nodes, open, p) && SelectedAt(nodes, open, q)
    ensures p == q
  {
  }

  lemma RemovedKeepsOpen(nodes: seq<BBNode>, open: seq<nat>, pos: nat)
    requires OpenValid(nodes, open) && pos < |open|
    ensures OpenValid(nodes, Removed(open, pos))
    ensures forall k :: 0 <= k < |Removed(open, pos)| ==> Removed(open, pos)[k] != open[pos]
  {
  }

  lemma SameShapeKeepsOpen(a: seq<BBNode>, b: seq<BBNode>, open: seq<nat>)
    requires SameShape(a, b) && OpenValid(a, open)
    ensures OpenValid(b, open)
  {
  }

  // ---------------------------------------------------------------------
  // The variable bounds of a node's subproblem
  // ---------------------------------------------------------------------

  /** Lower bounds of node `n`'s subproblem: 1 where the chain fixes the
      variable to 1, 0 elsewhere. */
  function LowerBoundsAt(nodes: seq<BBNode>, n: nat, nVertices: nat, nCores: nat): (lo: seq<seq<int>>)
    ensures Shaped(lo, nVertices, nCores)
  {
    seq(nVertices, i => seq(nCores, j => if FixedOnChain(nodes, n, (i, j), true) then 1 else 0))
  }

  /** Upper bounds of node `n`'s subproblem: 0 where the chain fixes the
      variable to 0, 1 elsewhere. */
  function UpperBoundsAt(nodes: seq<BBNode>, n: nat, nVertices: nat, nCores: nat): (up: seq<seq<int>>)
    ensures Shaped(up, nVertices, nCores)
  {
    seq(nVertices, i => seq(nCores, j => if FixedOnChain(nodes, n, (i, j), false) then 0 else 1))
  }

  /** An array whose cells agree with a grid holds that grid. */
  lemma RowsOf(a: array2<int>, g: seq<seq<int>>)
    requires Shaped(g, a.Length0, a.Length1)
    requires forall i, j :: 0 <= i < a.Length0 && 0 <= j < a.Length1 ==> a[i, j] == g[i][j]
    ensures Rows(a) == g
  {
    SameGridValues(Rows(a), g, a.Length0, a.Length1);
  }

  /** How the main loop treats a node whose relaxation answered `ans`, the
      incumbent value being `z`: infeasible relaxations are dropped, bounds
      not below z + Eps are pruned, integral solutions become the incumbent,
      and any other node is split. */
  function Classify(ans: LPAnswer, z: real): (r: StepOutcome)
    ensures r != NoNodeSelected
    ensures r == DroppedInfeasible <==> ans.status == Infeasible
    ensures r == PrunedByBound <==> ans.status != Infeasible && ans.objVal >= z + Eps
    ensures r == NewIncumbent <==> ans.status != Infeasible && ans.objVal < z + Eps && Integral(ans.x)
    ensures r == Branched <==> ans.status != Infeasible && ans.objVal < z + Eps && !Integral(ans.x)
  {
    if ans.status == Infeasible then DroppedInfeasible
    else if ans.objVal >= z + Eps then PrunedByBound
    else if Integral(ans.x) then NewIncumbent
    else Branched
  }

  /** The answer of the solver for node `n`'s subproblem. */
  function Relaxed(oracle: LPOracle, nodes: seq<BBNode>, n: nat, nVertices: nat, nCores: nat): LPAnswer
  {
    oracle(LowerBoundsAt(nodes, n, nVertices, nCores), UpperBoundsAt(nodes, n, nVertices, nCores))
  }

  // ---------------------------------------------------------------------
  // Splitting a node
  // ---------------------------------------------------------------------

  /** The arena after node `n`, solved with value `zi`, is split on `v`: `n`
      records `zi` and its children, and the children are appended, left
      (fix `v` to 1) then right (fix `v` to 0), each starting from `zi`. */
  function Split(nodes: seq<BBNode>, n: nat, v: (int, int), zi: real): (s: seq<BBNode>)
    requires n < |nodes|
    ensures |s| == |nodes| + 2
  {
    var l := |nodes|;
    nodes[n := nodes[n].(ub := zi, leftChild := Some(l), rightChild := Some(l + 1))] +
      [BBNode(v, true, Some(n), None, None, zi), BBNode(v, false, Some(n), None, None, zi)]
  }

  /** Splitting an unsplit node on a variable of the grid keeps the arena a
      valid tree. */
  lemma SplitKeepsTree(nodes: seq<BBNode>, nVertices: int, nCores: int, n: nat, v: (int, int), zi: real)
    requires TreeValid(nodes, nVertices, nCores) && n < |nodes| && !HasChildren(nodes[n])
    requires 0 <= v.0 < nVertices && 0 <= v.1 < nCores
    ensures TreeValid(Split(nodes, n, v, zi), nVertices, nCores)
  {
    var s := Split(nodes, n, v, zi);
    var l := |nodes|;
    assert ChildrenOk(nodes, n);
    forall i | 0 <= i < |s|
      ensures ChildrenOk(s, i) && ParentOk(s, i, nVertices, nCores)
    {
      if i < l && i != n {
        assert ChildrenOk(nodes, i) && ParentOk(nodes, i, nVertices, nCores);
      } else if i == n {
        assert ParentOk(nodes, n, nVertices, nCores);
      }
    }
  }

  /** Splitting keeps the open list valid once the split node has left it
      and its two children have joined it. */
  lemma SplitKeepsOpen(nodes: seq<BBNode>, open: seq<nat>, n: nat, v: (int, int), zi: real)
    requires n < |nodes| && OpenValid(nodes, open)
    requires forall k :: 0 <= k < |open| ==> open[k] != n
    ensures OpenValid(Split(nodes, n, v, zi), open + [|nodes|, |nodes| + 1])
  {
  }

  /** The split keeps the fixes of every existing chain. */
  lemma {:induction false} SplitKeepsFixes(nodes: seq<BBNode>, n: nat, v: (int, int), zi: real,
                                           m: nat, w: (int, int), toOne: bool)
    requires n < |nodes| && m < |nodes|
    ensures FixedOnChain(Split(nodes, n, v, zi), m, w, toOne) <==> FixedOnChain(nodes, m, w, toOne)
    decreases m
  {
    var s := Split(nodes, n, v, zi);
    assert s[m].parent == nodes[m].parent && s[m].varToFix == nodes[m].varToFix && s[m].fix1 == nodes[m].fix1;
    if nodes[m].parent.Some? && nodes[m].parent.value < m {
      SplitKeepsFixes(nodes, n, v, zi, nodes[m].parent.value, w, toOne);
    }
  }

  /** Each child's subproblem is its parent's with one more fix: the left
      child adds `v` fixed to 1 and the right child adds `v` fixed to 0. */
  lemma SplitChildFixes(nodes: seq<BBNode>, n: nat, v: (int, int), zi: real, w: (int, int), toOne: bool)
    requires n < |nodes|
    ensures FixedOnChain(Split(nodes, n, v, zi), |nodes|, w, toOne) <==>
      (w == v && toOne) || FixedOnChain(nodes, n, w, toOne)
    ensures FixedOnChain(Split(nodes, n, v, zi), |nodes| + 1, w, toOne) <==>
      (w == v && !toOne) || FixedOnChain(nodes, n, w, toOne)
  {
    SplitKeepsFixes(nodes, n, v, zi, n, w, toOne);
  }

  /** The left child's subproblem is its parent's with the branching
      variable's lower bound raised to 1. */
  lemma LeftChildBounds(nodes: seq<BBNode>, nVertices: nat, nCores: nat, n: nat, v: (int, int), zi: real)
    requires n < |nodes| && 0 <= v.0 < nVertices && 0 <= v.1 < nCores
    ensures var s := Split(nodes, n, v, zi);
      var lo := LowerBoundsAt(nodes, n, nVertices, nCores);
      LowerBoundsAt(s, |nodes|, nVertices, nCores) == lo[v.0 := lo[v.0][v.1 := 1]] &&
      UpperBoundsAt(s, |nodes|, nVertices, nCores) == UpperBoundsAt(nodes, n, nVertices, nCores)
  {
    var s := Split(nodes, n, v, zi);
    var lo := LowerBoundsAt(nodes, n, nVertices, nCores);
    var up := UpperBoundsAt(nodes, n, nVertices, nCores);
    var lo' := LowerBoundsAt(s, |nodes|, nVertices, nCores);
    var up' := UpperBoundsAt(s, |nodes|, nVertices, nCores);
    forall i, j | 0 <= i < nVertices && 0 <= j < nCores
      ensures lo'[i][j] == lo[v.0 := lo[v.0][v.1 := 1]][i][j] && up'[i][j] == up[i][j]
    {
      SplitChildFixes(nodes, n, v, zi, (i, j), true);
      SplitChildFixes(nodes, n, v, zi, (i, j), false);
    }
    SameGridValues(lo', lo[v.0 := lo[v.0][v.1 := 1]], nVertices, nCores);
    SameGridValues(up', up, nVertices, nCores);
  }

  /** The right child's subproblem is its parent's with the branching
      variable's upper bound lowered to 0. */
  lemma RightChildBounds(nodes: seq<BBNode>, nVertices: nat, nCores: nat, n: nat, v: (int, int), zi: real)
    requires n < |nodes| && 0 <= v.0 < nVertices && 0 <= v.1 < nCores
    ensures var s := Split(nodes, n, v, zi);
      var up := UpperBoundsAt(nodes, n, nVertices, nCores);
      LowerBoundsAt(s, |nodes| + 1, nVertices, nCores) == LowerBoundsAt(nodes, n, nVertices, nCores) &&
      UpperBoundsAt(s, |nodes| + 1, nVertices, nCores) == up[v.0 := up[v.0][v.1 := 0]]
  {
    var s := Split(nodes, n, v, zi);
    var lo := LowerBoundsAt(nodes, n, nVertices, nCores);
    var up := UpperBoundsAt(nodes, n, nVertices, nCores);
    var lo' := LowerBoundsAt(s, |nodes| + 1, nVertices, nCores);
    var up' := UpperBoundsAt(s, |nodes| + 1, nVertices, nCores);
    forall i, j | 0 <= i < nVertices && 0 <= j < nCores
      ensures lo'[i][j] == lo[i][j] && up'[i][j] == up[v.0 := up[v.0][v.1 := 0]][i][j]
    {
      SplitChildFixes(nodes, n, v, zi, (i, j), true);
      SplitChildFixes(nodes, n, v, zi, (i, j), false);
    }
    SameGridValues(lo', lo, nVertices, nCores);
    SameGridValues(up', up[v.0 := up[v.0][v.1 := 0]], nVertices, nCores);
  }

  lemma SameGridValues(a: seq<seq<int>>, b: seq<seq<int>>, rows: nat, cols: nat)
    requires Shaped(a, rows, cols) && Shaped(b, rows, cols)
    requires forall i, j :: 0 <= i < rows && 0 <= j < cols ==> a[i][j] == b[i][j]
    ensures a == b
  {
    forall i | 0 <= i < rows
      ensures a[i] == b[i]
    {
    }
  }

  // ---------------------------------------------------------------------
  // One pass of the main loop, on values
  // ---------------------------------------------------------------------

  /** The scalar and list part of the search's state: the arena, the open
      list, the incumbent value, the root, and the two statistics the search
      updates. */
  datatype SearchState = SearchState(nodes: seq<BBNode>, open: seq<nat>, z: real, rootNode: Option<nat>,
                                     firstLinearRelaxVal: real, nBBNodes: int)

  /** The state once the node at position `pos` has left the open list. */
  function Taken(s: SearchState, pos: nat): SearchState
    requires pos < |s.open|
  {
    s.(open := Removed(s.open, pos))
  }

  /** The state after node `n`'s relaxation answered `ans` and, if the node
      is split, `v` was chosen as the branching variable. An infeasible
      answer changes nothing. Otherwise `n` records the relaxation value as
      its bound (the first node solved becoming the root), and then a node
      classified as pruned changes nothing more, an integral solution
      becomes the incumbent value, and any other node is split. The counter
      of created nodes grows with the arena, and the incumbent value rises,
      if at all, by less than Eps. */
  function AfterAnswer(s: SearchState, n: nat, ans: LPAnswer, v: (int, int)): (r: SearchState)
    requires n < |s.nodes|
    ensures r.nBBNodes - s.nBBNodes == |r.nodes| - |s.nodes|
    ensures r.z == s.z || r.z < s.z + Eps
    ensures |r.nodes| >= |s.nodes|
    ensures Classify(ans, s.z) != DroppedInfeasible ==>
      r.rootNode.Some? && r.nodes[n].ub == ans.objVal
  {
    var outcome := Classify(ans, s.z);
    if outcome == DroppedInfeasible then s
    else
      var zi := ans.objVal;
      var recorded := s.(nodes := s.nodes[n := s.nodes[n].(ub := zi)],
                         rootNode := if s.rootNode.None? then Some(n) else s.rootNode,
                         firstLinearRelaxVal := if s.rootNode.None? then zi else s.firstLinearRelaxVal);
      if outcome == PrunedByBound then recorded
      else if outcome == NewIncumbent then recorded.(z := zi)
      else recorded.(nodes := Split(s.nodes, n, v, zi),
                     open := s.open + [|s.nodes|, |s.nodes| + 1],
                     nBBNodes := s.nBBNodes + 2)
  }

  /** The state once the test at the top of a pass has recomputed the root
      bound from the whole tree; before the root is solved nothing changes. */
  function Checked(s: SearchState): (r: SearchState)
    requires Linked(s.nodes) && |s.nodes| >= 1
    ensures SameShape(s.nodes, r.nodes) && r.open == s.open && r.z == s.z
  {
    if s.rootNode.Some? then s.(nodes := Propagate(s.nodes, 0)) else s
  }

  /** The root-bound stop: the root has been solved and its recomputed bound
      is at least z + Eps. */
  predicate RootStop(s: SearchState)
    requires Linked(s.nodes) && |s.nodes| >= 1
  {
    s.rootNode.Some? && Propagate(s.nodes, 0)[0].ub >= s.z + Eps
  }

  /** The choices a pass makes that the state alone does not record: the
      position of the selected node in the open list and, when the node is
      split, the branching variable. */
  datatype PassChoice = PassChoice(pos: nat, branchVar: (int, int))

  /** A pass of the main loop that processes a node takes `s` to `t`: the
      root bound does not stop the search, `c.pos` is the position that the
      selection takes from the recomputed tree, the solver answers for that
      node's subproblem, and `t` is the state after that answer, `c.branchVar`
      being the branching variable when the node is split. */
  ghost predicate PassStep(oracle: LPOracle, nVertices: nat, nCores: nat, s: SearchState, c: PassChoice, t: SearchState)
  {
    Linked(s.nodes) && |s.nodes| >= 1 && !RootStop(s) &&
    (forall k :: 0 <= k < |s.open| ==> s.open[k] < |s.nodes|) &&
    SelectedAt(Checked(s).nodes, s.open, c.pos) &&
    var n := s.open[c.pos];
    var ans := Relaxed(oracle, Checked(s).nodes, n, nVertices, nCores);
    (Classify(ans, s.z) == Branched ==>
       Shaped(ans.x, nVertices, nCores) && IsBranchingVar(ans.x, nVertices, nCores, c.branchVar)) &&
    t == AfterAnswer(Taken(Checked(s), c.pos), n, ans, c.branchVar)
  }

  /** `trace` lists the states at the top of consecutive passes that each
      processed a node, with `choices` the choices of those passes. */
  ghost predicate Traced(oracle: LPOracle, nVertices: nat, nCores: nat, trace: seq<SearchState>, choices: seq<PassChoice>)
  {
    |trace| == |choices| + 1 &&
    forall k :: 0 <= k < |choices| ==> PassStep(oracle, nVertices, nCores, trace[k], choices[k], trace[k + 1])
  }

  /** A trace grows by one more pass from its last state. */
  lemma TraceExtend(oracle: LPOracle, nVertices: nat, nCores: nat, trace: seq<SearchState>, choices: seq<PassChoice>,
                    c: PassChoice, t: SearchState)
    requires Traced(oracle, nVertices, nCores, trace, choices)
    requires PassStep(oracle, nVertices, nCores, trace[|trace| - 1], c, t)
    ensures Traced(oracle, nVertices, nCores, trace + [t], choices + [c])
  {
    var trace', choices' := trace + [t], choices + [c];
    forall k | 0 <= k < |choices'|
      ensures PassStep(oracle, nVertices, nCores, trace'[k], choices'[k], trace'[k + 1])
    {
      if k < |choices| {
        assert trace'[k] == trace[k] && trace'[k + 1] == trace[k + 1] && choices'[k] == choices[k];
      }
    }
  }

  // ---------------------------------------------------------------------
  // The search
  // ---------------------------------------------------------------------

  class Search {
    const nVertices: nat
    const nCores: nat
    const stats: Statistics
    /** The lower and upper bounds of the relaxation's variables X[i, j]. */
    const lowerBounds: array2<int>
    const upperBounds: array2<int>
    /** best_sol: the heuristic's grid itself, overwritten in place. */
    const bestSol: array2<int>
    var nodes: seq<BBNode>
    var open: seq<nat>
    /** z_, the value of the incumbent. */
    var z: real
    /** The root node once its relaxation has been solved (is_root_node is
        `rootNode.None?`). */
    var rootNode: Option<nat>

    /** The two bound arrays are distinct and cover the grid. */
    ghost predicate BoundsShaped()
      reads this
    {
      lowerBounds.Length0 == nVertices && lowerBounds.Length1 == nCores &&
      upperBounds.Length0 == nVertices && upperBounds.Length1 == nCores &&
      lowerBounds != upperBounds
    }

    ghost function State(): SearchState
      reads this, stats
    {
      SearchState(nodes, open, z, rootNode, stats.firstLinearRelaxVal, stats.nBBNodes)
    }

    /** The incumbent grid holds only 0s and 1s. */
    ghost predicate IncumbentBinary()
      reads this, bestSol
    {
      forall i, j :: 0 <= i < bestSol.Length0 && 0 <= j < bestSol.Length1 ==>
        bestSol[i, j] == 0 || bestSol[i, j] == 1
    }

    ghost predicate Valid()
      reads this, stats
    {
      nVertices >= 1 && nCores >= 1 && BoundsShaped() &&
      bestSol.Length0 == nVertices && bestSol.Length1 == nCores &&
      bestSol != lowerBounds && bestSol != upperBounds &&
      bestSol == stats.heuristicSolution &&
      TreeValid(nodes, nVertices, nCores) && OpenValid(nodes, open) &&
      (rootNode.None? ==> |nodes| == 1) &&
      (rootNode.Some? ==> rootNode.value == 0)
    }

    /** The set-up of the search: every variable bounded by [0, 1], the
        incumbent taken from the heuristic, and the root node created and
        put on the open list. */
    constructor (nVertices: nat, nCores: nat, stats: Statistics)
      requires nVertices >= 1 && nCores >= 1
      requires stats.heuristicSolution.Length0 == nVertices && stats.heuristicSolution.Length1 == nCores
      modifies stats`nBBNodes
      ensures Valid() && fresh(lowerBounds) && fresh(upperBounds)
      ensures this.nVertices == nVertices && this.nCores == nCores && this.stats == stats
      ensures bestSol == stats.heuristicSolution && z == stats.heuristicSolVal
      ensures nodes == [BBNode(RootVar, false, None, None, None, RootBound)] && open == [0]
      ensures rootNode.None?
      ensures stats.nBBNodes == old(stats.nBBNodes) + 1
      ensures forall i, j :: 0 <= i < nVertices && 0 <= j < nCores ==>
        lowerBounds[i, j] == 0 && upperBounds[i, j] == 1
    {
      this.nVertices := nVertices;
      this.nCores := nCores;
      this.stats := stats;
      lowerBounds := new int[nVertices, nCores]((i, j) => 0);
      upperBounds := new int[nVertices, nCores]((i, j) => 1);
      bestSol := stats.heuristicSolution;
      z := stats.heuristicSolVal;
      nodes := [];
      open := [];
      rootNode := None;
      new;
      var n0 := CreateBBNode(RootVar, false, None, RootBound);
      AddBBNode(n0);
    }

    /** Appends a node to the open list. */
    method AddBBNode(k: nat)
      modifies this`open
      ensures open == old(open) + [k]
    {
      open := open + [k];
    }

    /** Creates a node without children and counts it. */
    method CreateBBNode(v: (int, int), fix1: bool, parent: Option<nat>, ub: real) returns (k: nat)
      modifies this`nodes, stats`nBBNodes
      ensures k == |old(nodes)| && nodes == old(nodes) + [BBNode(v, fix1, parent, None, None, ub)]
      ensures stats.nBBNodes == old(stats.nBBNodes) + 1
    {
      stats.nBBNodes := stats.nBBNodes + 1;
      k := |nodes|;
      nodes := nodes + [BBNode(v, fix1, parent, None, None, ub)];
    }

    /** Takes from the open list the first node with the largest positive
        bound; with no positive bound, selects nothing and leaves the list. */
    method SelectBBNode() returns (sel: Option<nat>, ghost pos: nat)
      requires Valid()
      modifies this`open
      ensures Valid()
      ensures sel.None? <==> NoPositiveBound(nodes, old(open))
      ensures sel.None? ==> open == old(open)
      ensures sel.Some? ==>
        SelectedAt(nodes, old(open), pos) && sel.value == old(open)[pos] &&
        open == Removed(old(open), pos)
    {
      var best := -1;
      var maxUB := 0.0;
      for k := 0 to |open|
        invariant -1 <= best < k || (best == -1 && k == 0)
        invariant best == -1 ==> maxUB == 0.0 && forall t :: 0 <= t < k ==> nodes[open[t]].ub <= 0.0
        invariant best >= 0 ==>
          maxUB == nodes[open[best]].ub && maxUB > 0.0 &&
          (forall t :: 0 <= t < k ==> nodes[open[t]].ub <= maxUB) &&
          (forall t :: 0 <= t < best ==> nodes[open[t]].ub < maxUB)
      {
        if nodes[open[k]].ub > maxUB {
          maxUB := nodes[open[k]].ub;
          best := k;
        }
      }
      if best == -1 {
        sel, pos := None, 0;
      } else {
        sel, pos := Some(open[best]), best;
        RemovedKeepsOpen(nodes, open, best);
        open := Removed(open, best);
      }
    }

    /** Resets every variable to its bounds [0, 1]. */
    method ClearBranchConstraints()
      requires BoundsShaped()
      modifies lowerBounds, upperBounds
      ensures forall i, j :: 0 <= i < nVertices && 0 <= j < nCores ==>
        lowerBounds[i, j] == 0 && upperBounds[i, j] == 1
    {
      for i := 0 to nVertices
        invariant forall p, q :: 0 <= p < i && 0 <= q < nCores ==>
          lowerBounds[p, q] == 0 && upperBounds[p, q] == 1
      {
        for j := 0 to nCores
          invariant forall p, q :: 0 <= p < i && 0 <= q < nCores ==>
            lowerBounds[p, q] == 0 && upperBounds[p, q] == 1
          invariant forall q :: 0 <= q < j ==> lowerBounds[i, q] == 0 && upperBounds[i, q] == 1
        {
          upperBounds[i, j] := 1;
          lowerBounds[i, j] := 0;
        }
      }
    }

    /** Walks from node `n` up to (not including) the root, raising the lower
        bound of each variable fixed to 1 and lowering the upper bound of each
        variable fixed to 0; every other bound is left as it was. */
    method AddBranchConstraints(n: nat)
      requires BoundsShaped() && TreeValid(nodes, nVertices, nCores) && n < |nodes|
      modifies lowerBounds, upperBounds
      ensures forall i, j :: 0 <= i < nVertices && 0 <= j < nCores ==>
        lowerBounds[i, j] == (if FixedOnChain(nodes, n, (i, j), true) then 1 else old(lowerBounds[i, j])) &&
        upperBounds[i, j] == (if FixedOnChain(nodes, n, (i, j), false) then 0 else old(upperBounds[i, j]))
      decreases n
    {
      var node := nodes[n];
      if node.parent.Some? {
        assert ParentOk(nodes, n, nVertices, nCores);
        var i, j := node.varToFix.0, node.varToFix.1;
        if node.fix1 {
          lowerBounds[i, j] := 1;
        } else {
          upperBounds[i, j] := 0;
        }
        AddBranchConstraints(node.parent.value);
      }
    }

    /** Replays node `n`'s chain on fresh bounds: the bounds become exactly
        those of `n`'s subproblem. */
    method SetBoundsFor(n: nat)
      requires BoundsShaped() && TreeValid(nodes, nVertices, nCores) && n < |nodes|
      modifies lowerBounds, upperBounds
      ensures Rows(lowerBounds) == LowerBoundsAt(nodes, n, nVertices, nCores)
      ensures Rows(upperBounds) == UpperBoundsAt(nodes, n, nVertices, nCores)
    {
      ClearBranchConstraints();
      AddBranchConstraints(n);
      RowsOf(lowerBounds, LowerBoundsAt(nodes, n, nVertices, nCores));
      RowsOf(upperBounds, UpperBoundsAt(nodes, n, nVertices, nCores));
    }

    /** Recomputes the bounds below node `n`: a node with both children
        takes the smaller of its children's recomputed bounds. */
    method UpdateUB(n: nat) returns (v: real)
      requires Linked(nodes) && n < |nodes|
      modifies this`nodes
      ensures nodes == Propagate(old(nodes), n)
      ensures v == nodes[n].ub
      decreases |nodes| - n
    {
      var node := nodes[n];
      if node.leftChild.None? || node.rightChild.None? {
        return node.ub;
      }
      assert ChildrenOk(nodes, n);
      var a := UpdateUB(node.leftChild.value);
      var b := UpdateUB(node.rightChild.value);
      v := Min(a, b);
      nodes := nodes[n := nodes[n].(ub := v)];
    }

    /** The test at the top of the main loop: once the root has been solved,
        its bound is recomputed from the whole tree, and the search stops when
        that bound reaches z + Eps. */
    method CheckRootBound() returns (stop: bool)
      requires Valid()
      modifies this`nodes
      ensures Valid()
      ensures rootNode.None? ==> !stop && nodes == old(nodes)
      ensures rootNode.Some? ==>
        nodes == Propagate(old(nodes), 0) && Propagate(nodes, 0) == nodes &&
        (stop <==> nodes[0].ub >= z + Eps)
      ensures State() == Checked(old(State())) && (stop <==> RootStop(old(State())))
    {
      stop := false;
      if rootNode.Some? {
        ghost var before := nodes;
        var rootUB := UpdateUB(rootNode.value);
        PropagateFromRoot(before, nVertices, nCores);
        SameShapeKeepsOpen(before, nodes, open);
        stop := nodes[rootNode.value].ub >= z + Eps;
      }
    }

    /** Stores the relaxation value `zi` as node `n`'s bound; the first
        node solved becomes the root and its value is recorded as the first
        linear relaxation value. */
    method RecordBound(n: nat, zi: real)
      requires Valid() && n < |nodes|
      modifies this`nodes, this`rootNode, stats`firstLinearRelaxVal
      ensures Valid()
      ensures nodes == old(nodes)[n := old(nodes)[n].(ub := zi)]
      ensures old(rootNode).None? ==> n == 0 && rootNode == Some(0) && stats.firstLinearRelaxVal == zi
      ensures old(rootNode).Some? ==>
        rootNode == old(rootNode) && stats.firstLinearRelaxVal == old(stats.firstLinearRelaxVal)
    {
      ghost var before := nodes;
      nodes := nodes[n := nodes[n].(ub := zi)];
      SameShapeKeepsTree(before, nodes, nVertices, nCores);
      SameShapeKeepsOpen(before, nodes, open);
      if rootNode.None? {
        stats.firstLinearRelaxVal := zi;
        rootNode := Some(n);
      }
    }

    /** Splits node `n`, which has just left the open list, on variable `v`:
        both children are created from the bound `zi`, linked to `n`, and
        appended to the open list, left first. */
    method BranchOn(n: nat, v: (int, int), zi: real)
      requires Valid() && n < |nodes| && !HasChildren(nodes[n]) && rootNode.Some?
      requires 0 <= v.0 < nVertices && 0 <= v.1 < nCores
      requires forall k :: 0 <= k < |open| ==> open[k] != n
      modifies this`nodes, this`open, stats`nBBNodes
      ensures Valid()
      ensures nodes == Split(old(nodes), n, v, zi)
      ensures open == old(open) + [|old(nodes)|, |old(nodes)| + 1]
      ensures stats.nBBNodes == old(stats.nBBNodes) + 2
    {
      ghost var before := nodes;
      SplitKeepsTree(before, nVertices, nCores, n, v, zi);
      SplitKeepsOpen(before, open, n, v, zi);
      var l := CreateBBNode(v, true, Some(n), zi);
      var r := CreateBBNode(v, false, Some(n), zi);
      nodes := nodes[n := nodes[n].(ub := zi, leftChild := Some(l), rightChild := Some(r))];
      assert nodes == Split(before, n, v, zi);
      AddBBNode(l);
      AddBBNode(r);
    }

    /** What the main loop does with node `n` once its relaxation has been
        solved with answer `ans`: record the bound, then prune the node,
        accept its solution as the new incumbent, or split it. */
    method HandleAnswer(n: nat, ans: LPAnswer) returns (outcome: StepOutcome, ghost branchVar: (int, int))
      requires Valid() && n < |nodes| && !HasChildren(nodes[n])
      requires forall k :: 0 <= k < |open| ==> open[k] != n
      requires ans.status != Infeasible && Shaped(ans.x, nVertices, nCores)
      modifies this`open, this`nodes, this`z, this`rootNode, stats`nBBNodes, stats`firstLinearRelaxVal
      modifies bestSol
      ensures Valid()
      ensures outcome == Classify(ans, old(z))
      ensures State() == AfterAnswer(old(State()), n, ans, branchVar)
      ensures outcome == Branched ==> IsBranchingVar(ans.x, nVertices, nCores, branchVar)
      ensures outcome == NewIncumbent ==>
        forall i, j :: 0 <= i < nVertices && 0 <= j < nCores ==>
          bestSol[i, j] == if ans.x[i][j] > Eps then 1 else 0
      ensures outcome != NewIncumbent ==> unchanged(bestSol)
    {
      branchVar := RootVar;
      var zi := ans.objVal;
      RecordBound(n, zi);
      if zi >= z + Eps {
        return PrunedByBound, branchVar;
      }
      var integral := IsInteger(ans.x, nVertices, nCores);
      if integral {
        z := zi;
        CopySolution(ans.x, nVertices, nCores, bestSol);
        return NewIncumbent, branchVar;
      }
      var iVar := SelectFracVar(ans.x, nVertices, nCores);
      var v := iVar.value;
      branchVar := v;
      ghost var recorded := nodes;
      BranchOn(n, v, zi);
      assert Split(recorded, n, v, zi) == Split(old(nodes), n, v, zi);
      outcome := Branched;
      assert !Integral(ans.x);
    }

    /** Solves node `n`, which has just left the open list: its subproblem's
        bounds are set, the solver answers, and the node is dropped when the
        relaxation is infeasible and handled otherwise. */
    method SolveNode(oracle: LPOracle, n: nat) returns (outcome: StepOutcome, ans: LPAnswer, ghost branchVar: (int, int))
      requires Valid() && n < |nodes| && !HasChildren(nodes[n]) && OracleShaped(oracle, nVertices, nCores)
      requires forall k :: 0 <= k < |open| ==> open[k] != n
      modifies this`open, this`nodes, this`z, this`rootNode, stats`nBBNodes, stats`firstLinearRelaxVal
      modifies lowerBounds, upperBounds, bestSol
      ensures Valid()
      ensures ans == Relaxed(oracle, old(nodes), n, nVertices, nCores)
      ensures outcome == Classify(ans, old(z))
      ensures State() == AfterAnswer(old(State()), n, ans, branchVar)
      ensures outcome == Branched ==> IsBranchingVar(ans.x, nVertices, nCores, branchVar)
      ensures outcome == NewIncumbent ==>
        forall i, j :: 0 <= i < nVertices && 0 <= j < nCores ==>
          bestSol[i, j] == if ans.x[i][j] > Eps then 1 else 0
      ensures outcome != NewIncumbent ==> unchanged(bestSol)
    {
      branchVar := RootVar;
      SetBoundsFor(n);
      ans := oracle(Rows(lowerBounds), Rows(upperBounds));
      if ans.status == Infeasible {
        return DroppedInfeasible, ans, branchVar;
      }
      outcome, branchVar := HandleAnswer(n, ans);
    }

    /** One pass of the main loop after the stop tests: select a node and
        solve it. */
    method ProcessNode(oracle: LPOracle)
      returns (outcome: StepOutcome, ghost pos: nat, n: nat, ans: LPAnswer, ghost branchVar: (int, int))
      requires Valid() && |open| > 0 && OracleShaped(oracle, nVertices, nCores)
      modifies this`open, this`nodes, this`z, this`rootNode, stats`nBBNodes, stats`firstLinearRelaxVal
      modifies lowerBounds, upperBounds, bestSol
      ensures Valid()
      ensures outcome == NoNodeSelected <==> NoPositiveBound(old(nodes), old(open))
      ensures outcome == NoNodeSelected ==> State() == old(State()) && unchanged(bestSol)
      ensures outcome != NoNodeSelected ==>
        SelectedAt(old(nodes), old(open), pos) && n == old(open)[pos] &&
        ans == Relaxed(oracle, old(nodes), n, nVertices, nCores)
      ensures outcome != NoNodeSelected ==>
        outcome == Classify(ans, old(z)) &&
        State() == AfterAnswer(Taken(old(State()), pos), n, ans, branchVar)
      ensures outcome == Branched ==> IsBranchingVar(ans.x, nVertices, nCores, branchVar)
      ensures outcome == NewIncumbent ==>
        forall i, j :: 0 <= i < nVertices && 0 <= j < nCores ==>
          bestSol[i, j] == if ans.x[i][j] > Eps then 1 else 0
      ensures outcome != NewIncumbent ==> unchanged(bestSol)
    {
      branchVar := RootVar;
      var sel;
      sel, pos := SelectBBNode();
      if sel.None? {
        return NoNodeSelected, pos, 0, LPAnswer(0, 0.0, []), branchVar;
      }
      n := sel.value;
      outcome, ans, branchVar := SolveNode(oracle, n);
    }

    /** One pass of the main loop, the stop tests included: the root bound
        test, the time-limit test (`timeLeft` false when the budget is
        spent), then the node step. `stop` reports how the loop ends, if it
        does; a pass that does not stop processes the selected node, as
        `PassStep` describes, `choice` recording the selection and the
        branching variable and `ans` the solver's answer. */
    method Pass(oracle: LPOracle, timeLeft: bool)
      returns (stop: Option<RunOutcome>, ghost choice: PassChoice, ghost ans: LPAnswer)
      requires Valid() && |open| > 0 && OracleShaped(oracle, nVertices, nCores)
      modifies this`open, this`nodes, this`z, this`rootNode, stats`nBBNodes, stats`firstLinearRelaxVal
      modifies lowerBounds, upperBounds, bestSol
      ensures Valid()
      ensures stop == Some(RootBoundReached) <==> RootStop(old(State()))
      ensures stop == Some(TimeLimit) <==> !RootStop(old(State())) && !timeLeft
      ensures stop == Some(NoNodeToSelect) <==>
        !RootStop(old(State())) && timeLeft && NoPositiveBound(Checked(old(State())).nodes, old(open))
      ensures stop != Some(FrontierEmpty)
      ensures stop.Some? ==> State() == Checked(old(State())) && unchanged(bestSol)
      ensures stop == Some(RootBoundReached) ==>
        rootNode == Some(0) && nodes[0].ub >= z + Eps && Propagate(nodes, 0) == nodes
      ensures stop.None? ==>
        PassStep(oracle, nVertices, nCores, old(State()), choice, State()) &&
        ans == Relaxed(oracle, Checked(old(State())).nodes, old(open)[choice.pos], nVertices, nCores)
      ensures stop.None? && Classify(ans, old(z)) == NewIncumbent ==>
        forall i, j :: 0 <= i < nVertices && 0 <= j < nCores ==>
          bestSol[i, j] == if ans.x[i][j] > Eps then 1 else 0
      ensures stop.None? && Classify(ans, old(z)) != NewIncumbent ==> unchanged(bestSol)
      ensures stats.nBBNodes - old(stats.nBBNodes) == |nodes| - |old(nodes)|
      ensures z == old(z) || z < old(z) + Eps
      ensures old(IncumbentBinary()) ==> IncumbentBinary()
    {
      choice, ans := PassChoice(0, RootVar), LPAnswer(0, 0.0, []);
      var rootReached := CheckRootBound();
      if rootReached {
        return Some(RootBoundReached), choice, ans;
      }
      if !timeLeft {
        return Some(TimeLimit), choice, ans;
      }
      ghost var pos: nat, v: (int, int);
      var step, n, a;
      step, pos, n, a, v := ProcessNode(oracle);
      choice, ans := PassChoice(pos, v), a;
      if step == NoNodeSelected {
        return Some(NoNodeToSelect), choice, ans;
      }
      stop := None;
    }

    /** A pass of the main loop that also extends the record of the run:
        a pass that processes a node appends its choices and the new state,
        and a pass that stops the loop says why, in terms of the last
        recorded state. */
    method TracedPass(oracle: LPOracle, budget: nat, iterations: nat,
                      ghost trace: seq<SearchState>, ghost choices: seq<PassChoice>)
      returns (stop: Option<RunOutcome>, ghost trace': seq<SearchState>, ghost choices': seq<PassChoice>)
      requires Valid() && |open| > 0 && OracleShaped(oracle, nVertices, nCores)
      requires Traced(oracle, nVertices, nCores, trace, choices) && |choices| == iterations <= budget
      requires trace[|choices|] == State()
      modifies this`open, this`nodes, this`z, this`rootNode, stats`nBBNodes, stats`firstLinearRelaxVal
      modifies lowerBounds, upperBounds, bestSol
      ensures Valid()
      ensures Traced(oracle, nVertices, nCores, trace', choices') && trace'[0] == trace[0]
      ensures stop.None? ==> |choices'| == |choices| + 1 && |choices'| <= budget && trace'[|choices'|] == State()
      ensures stop.Some? ==>
        trace' == trace && choices' == choices && stop.value != FrontierEmpty &&
        TreeValid(trace[|choices|].nodes, nVertices, nCores) && State() == Checked(trace[|choices|])
      ensures stop == Some(RootBoundReached) ==>
        RootStop(trace[|choices|]) &&
        rootNode == Some(0) && nodes[0].ub >= z + Eps && Propagate(nodes, 0) == nodes
      ensures stop == Some(TimeLimit) ==> |choices| == budget && !RootStop(trace[|choices|])
      ensures stop == Some(NoNodeToSelect) ==>
        |choices| < budget && !RootStop(trace[|choices|]) && NoPositiveBound(nodes, open)
      ensures stats.nBBNodes - old(stats.nBBNodes) == |nodes| - |old(nodes)|
      ensures z == old(z) || z < old(z) + Eps
      ensures old(IncumbentBinary()) ==> IncumbentBinary()
    {
      ghost var choice, ans;
      stop, choice, ans := Pass(oracle, iterations < budget);
      trace', choices' := trace, choices;
      if stop.None? {
        TraceExtend(oracle, nVertices, nCores, trace, choices, choice, State());
        trace', choices' := trace + [State()], choices + [choice];
      }
    }

    /** The main loop. `budget` is how many nodes the time limit lets the
        search solve. The run is recorded as the states at the top of each
        pass that processed a node (`trace`) and the choices those passes
        made; consecutive states are related by `PassStep`, and the last one
        is where the loop stopped. On a normal exit (empty open list, or the
        root bound reaching z + Eps) the incumbent value is recorded as the
        objective value; on the time limit it is not. */
    method Run(oracle: LPOracle, budget: nat)
      returns (outcome: RunOutcome, ghost trace: seq<SearchState>, ghost choices: seq<PassChoice>)
      requires Valid() && OracleShaped(oracle, nVertices, nCores)
      modifies this`open, this`nodes, this`z, this`rootNode
      modifies stats`nBBNodes, stats`firstLinearRelaxVal, stats`objectiveValue
      modifies lowerBounds, upperBounds, bestSol
      ensures Valid()
      ensures Traced(oracle, nVertices, nCores, trace, choices)
      ensures |choices| <= budget && trace[0] == old(State())
      ensures TreeValid(trace[|choices|].nodes, nVertices, nCores)
      ensures outcome == FrontierEmpty ==>
        State() == trace[|choices|] && open == [] && stats.objectiveValue == z
      ensures outcome != FrontierEmpty ==>
        trace[|choices|].open != [] && State() == Checked(trace[|choices|])
      ensures outcome == RootBoundReached ==>
        RootStop(trace[|choices|]) && stats.objectiveValue == z &&
        rootNode == Some(0) && nodes[0].ub >= z + Eps && Propagate(nodes, 0) == nodes
      ensures outcome == TimeLimit ==>
        |choices| == budget && !RootStop(trace[|choices|]) &&
        stats.objectiveValue == old(stats.objectiveValue)
      ensures outcome == NoNodeToSelect ==>
        |choices| < budget && !RootStop(trace[|choices|]) &&
        NoPositiveBound(nodes, open) && stats.objectiveValue == old(stats.objectiveValue)
      ensures stats.nBBNodes - old(stats.nBBNodes) == |nodes| - old(|nodes|)
      ensures z <= old(z) + budget as real * Eps
      ensures old(IncumbentBinary()) ==> IncumbentBinary()
    {
      var iterations: nat := 0;
      outcome := FrontierEmpty;
      trace, choices := [State()], [];
      while open != []
        invariant Valid() && |choices| == iterations <= budget
        invariant Traced(oracle, nVertices, nCores, trace, choices)
        invariant trace[0] == old(State()) && trace[|choices|] == State()
        invariant stats.nBBNodes - old(stats.nBBNodes) == |nodes| - old(|nodes|)
        invariant z <= old(z) + |choices| as real * Eps
        invariant stats.objectiveValue == old(stats.objectiveValue)
        invariant old(IncumbentBinary()) ==> IncumbentBinary()
        decreases budget - iterations
      {
        var stop;
        stop, trace, choices := TracedPass(oracle, budget, iterations, trace, choices);
        if stop.Some? {
          outcome := stop.value;
          if outcome == RootBoundReached {
            break;
          }
          return;
        }
        iterations := iterations + 1;
      }
      stats.objectiveValue := z;
    }
  }
}
