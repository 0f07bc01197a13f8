/** The convex-recoloring instance, the assignment grid X[i][j] ("position i
    gets colour j+1"), the objective and the constraints of the integer model
    that the search seeds and solves, and the statistics record shared by the
    heuristic and the branch-and-bound engine. */
module Recoloring {

  datatype Option<T> = None | Some(value: T)

  /** A loaded instance: `nVertices` positions, each coloured in 1..nCores. */
  predicate ValidInstance(nVertices: int, nCores: int, path: seq<int>)
  {
    nVertices == |path| && nVertices >= 1 && nCores >= 1 &&
    forall i :: 0 <= i < |path| ==> 1 <= path[i] <= nCores
  }

  /** A grid with `rows` rows of `cols` entries each. */
  predicate Shaped<T>(x: seq<seq<T>>, rows: int, cols: int)
  {
    |x| == rows && forall i :: 0 <= i < |x| ==> |x[i]| == cols
  }

  /** The contents of a two-dimensional array, row by row. */
  function Rows(a: array2<int>): (r: seq<seq<int>>)
    reads a
    ensures Shaped(r, a.Length0, a.Length1)
    ensures forall i, j :: 0 <= i < a.Length0 && 0 <= j < a.Length1 ==> r[i][j] == a[i, j]
  {
    seq(a.Length0, i requires 0 <= i < a.Length0 reads a =>
      seq(a.Length1, j requires 0 <= j < a.Length1 reads a => a[i, j]))
  }

  /** Number of positions of `s` holding `x`. */
  function Occurrences(s: seq<int>, x: int): nat
  {
    if s == [] then 0
    else Occurrences(s[..|s| - 1], x) + (if s[|s| - 1] == x then 1 else 0)
  }

  /** Number of positions at which two colourings differ. */
  function Changed(a: seq<int>, b: seq<int>): nat
    requires |a| == |b|
  {
    if a == [] then 0
    else Changed(a[..|a| - 1], b[..|b| - 1]) + (if a[|a| - 1] != b[|b| - 1] then 1 else 0)
  }

  // ---------------------------------------------------------------------
  // The integer model
  // ---------------------------------------------------------------------

  /** The objective terms of one row: X[i][j] summed over the colours j+1
      other than the original colour of position i. That is the row's sum
      less its entry for the original colour, and it is never negative on a
      row of non-negative entries. */
  function RowCost(colour: int, row: seq<int>): (r: int)
    ensures r == RowSum(row) - (if 1 <= colour <= |row| then row[colour - 1] else 0)
    ensures (forall j :: 0 <= j < |row| ==> row[j] >= 0) ==> r >= 0
  {
    if row == [] then 0
    else RowCost(colour, row[..|row| - 1]) + (if colour != |row| then row[|row| - 1] else 0)
  }

  /** The objective of the model: sum of X[i][j] over all (i, j) with
      j + 1 != path[i]. On a 0/1 grid with one colour per position it lies
      between 0 and the number of positions. */
  function Objective(path: seq<int>, x: seq<seq<int>>): (r: int)
    requires |x| == |path|
    ensures Binary(x) && OneColourPerPosition(x) ==> 0 <= r <= |path|
  {
    if path == [] then 0
    else
      assert forall i :: 0 <= i < |x| - 1 ==> x[..|x| - 1][i] == x[i];
      Objective(path[..|path| - 1], x[..|x| - 1]) + RowCost(path[|path| - 1], x[|x| - 1])
  }

  function RowSum(row: seq<int>): int
  {
    if row == [] then 0 else RowSum(row[..|row| - 1]) + row[|row| - 1]
  }

  predicate Binary(x: seq<seq<int>>)
  {
    forall i, j :: 0 <= i < |x| && 0 <= j < |x[i]| ==> x[i][j] == 0 || x[i][j] == 1
  }

  /** Every position receives exactly one colour (the first constraint family). */
  predicate OneColourPerPosition(x: seq<seq<int>>)
  {
    forall i :: 0 <= i < |x| ==> RowSum(x[i]) == 1
  }

  /** X[p][k] - X[q][k] + X[r][k] <= 1 for all p < q < r and every colour k
      (the convexity constraint family). */
  predicate TripleFeasible(x: seq<seq<int>>, nCores: int)
    requires Shaped(x, |x|, nCores)
  {
    forall p, q, r, k :: 0 <= p < q < r < |x| && 0 <= k < nCores ==>
      x[p][k] - x[q][k] + x[r][k] <= 1
  }

  /** A feasible solution of the integer model. */
  predicate Feasible(x: seq<seq<int>>, nVertices: int, nCores: int)
  {
    Shaped(x, nVertices, nCores) && Binary(x) && OneColourPerPosition(x) && TripleFeasible(x, nCores)
  }

  /** A colouring is convex when each colour occupies one contiguous block. */
  predicate Convex(path: seq<int>)
  {
    forall p, q, r :: 0 <= p < q < r < |path| && path[p] == path[r] ==> path[q] == path[p]
  }

  function OneHotRow(colour: int, nCores: nat): seq<int>
  {
    seq(nCores, j => if j + 1 == colour then 1 else 0)
  }

  /** The 0/1 grid of a colouring: X[i][j] == 1 exactly when path[i] == j + 1. */
  function OneHot(path: seq<int>, nCores: nat): (x: seq<seq<int>>)
    ensures Shaped(x, |path|, nCores)
  {
    seq(|path|, i requires 0 <= i < |path| => OneHotRow(path[i], nCores))
  }

  lemma {:induction false} OneHotRowCost(colour: int, v: int, n: nat)
    ensures RowCost(colour, OneHotRow(v, n)) == if 1 <= v <= n && colour != v then 1 else 0
  {
    if n > 0 {
      assert OneHotRow(v, n)[..n - 1] == OneHotRow(v, n - 1);
      OneHotRowCost(colour, v, n - 1);
    }
  }

  lemma {:induction false} OneHotRowSum(v: int, n: nat)
    ensures RowSum(OneHotRow(v, n)) == if 1 <= v <= n then 1 else 0
  {
    if n > 0 {
      assert OneHotRow(v, n)[..n - 1] == OneHotRow(v, n - 1);
      OneHotRowSum(v, n - 1);
    }
  }

  /** For the grid of a colouring in range, the objective is the number of
      recoloured positions. */
  lemma {:induction false} ObjectiveOfOneHot(path: seq<int>, q: seq<int>, nCores: nat)
    requires |q| == |path|
    requires forall i :: 0 <= i < |q| ==> 1 <= q[i] <= nCores
    ensures Objective(path, OneHot(q, nCores)) == Changed(path, q)
  {
    if path != [] {
      var k := |path| - 1;
      assert OneHot(q, nCores)[..k] == OneHot(q[..k], nCores);
      ObjectiveOfOneHot(path[..k], q[..k], nCores);
      OneHotRowCost(path[k], q[k], nCores);
    }
  }

  /** The grid of a colouring in range satisfies every triple constraint
      exactly when the colouring is convex. */
  lemma OneHotTripleFeasibleIffConvex(q: seq<int>, nCores: nat)
    requires forall i :: 0 <= i < |q| ==> 1 <= q[i] <= nCores
    ensures TripleFeasible(OneHot(q, nCores), nCores) <==> Convex(q)
  {
    var x := OneHot(q, nCores);
    if TripleFeasible(x, nCores) {
      forall p, m, r | 0 <= p < m < r < |q| && q[p] == q[r]
        ensures q[m] == q[p]
      {
        var k := q[p] - 1;
        assert x[p][k] - x[m][k] + x[r][k] <= 1;
      }
    }
    if Convex(q) {
      forall p, m, r, k | 0 <= p < m < r < |x| && 0 <= k < nCores
        ensures x[p][k] - x[m][k] + x[r][k] <= 1
      {
        if q[p] == k + 1 && q[r] == k + 1 {
          assert q[m] == q[p];
        }
      }
    }
  }

  /** The grid of a convex colouring in range is a feasible solution of the
      integer model, and its objective counts the recoloured positions. */
  lemma ConvexOneHotFeasible(path: seq<int>, q: seq<int>, nCores: nat)
    requires |q| == |path| && Convex(q)
    requires forall i :: 0 <= i < |q| ==> 1 <= q[i] <= nCores
    ensures Feasible(OneHot(q, nCores), |q|, nCores)
    ensures Objective(path, OneHot(q, nCores)) == Changed(path, q)
  {
    var x := OneHot(q, nCores);
    forall i | 0 <= i < |x|
      ensures RowSum(x[i]) == 1
    {
      OneHotRowSum(q[i], nCores);
    }
    OneHotTripleFeasibleIffConvex(q, nCores);
    ObjectiveOfOneHot(path, q, nCores);
  }

  /** Every colour of `q` lies in 1..nCores. */
  predicate InColours(q: seq<int>, nCores: int)
  {
    forall i :: 0 <= i < |q| ==> 1 <= q[i] <= nCores
  }

  /** A 0/1 row has a non-negative sum; it sums to 0 only when it is all
      zeros, and to 1 only when it is the row of a single colour. */
  lemma {:induction false} BinaryRowSum(row: seq<int>)
    requires forall j :: 0 <= j < |row| ==> row[j] == 0 || row[j] == 1
    ensures RowSum(row) >= 0
    ensures RowSum(row) == 0 ==> row == OneHotRow(0, |row|)
    ensures RowSum(row) == 1 ==> exists c :: 1 <= c <= |row| && row == OneHotRow(c, |row|)
  {
    if row != [] {
      var n := |row|;
      var p := row[..n - 1];
      assert forall j :: 0 <= j < n - 1 ==> p[j] == row[j];
      BinaryRowSum(p);
      if RowSum(row) == 0 {
        assert row == OneHotRow(0, n) by {
          assert p == OneHotRow(0, n - 1);
        }
      }
      if RowSum(row) == 1 {
        if row[n - 1] == 1 {
          assert p == OneHotRow(0, n - 1);
          assert row == OneHotRow(n, n);
        } else {
          var c :| 1 <= c <= n - 1 && p == OneHotRow(c, n - 1);
          assert row == OneHotRow(c, n);
        }
      }
    }
  }

  /** A 0/1 grid with one colour per position is the grid of a colouring in
      range. */
  lemma {:induction false} AssignmentIsColouring(x: seq<seq<int>>, nCores: nat) returns (q: seq<int>)
    requires Shaped(x, |x|, nCores) && Binary(x) && OneColourPerPosition(x)
    ensures |q| == |x| && InColours(q, nCores) && x == OneHot(q, nCores)
  {
    if x == [] {
      q := [];
    } else {
      var k := |x| - 1;
      var prefix := x[..k];
      assert forall i :: 0 <= i < k ==> prefix[i] == x[i];
      var q' := AssignmentIsColouring(prefix, nCores);
      BinaryRowSum(x[k]);
      var c :| 1 <= c <= nCores && x[k] == OneHotRow(c, nCores);
      q := q' + [c];
      assert forall i :: 0 <= i < k ==> x[i] == OneHotRow(q[i], nCores);
    }
  }

  /** The feasible solutions of the integer model are exactly the grids of
      the convex colourings in range. */
  lemma FeasibleIffConvexColouring(x: seq<seq<int>>, nVertices: nat, nCores: nat)
    ensures Feasible(x, nVertices, nCores) <==>
      exists q :: |q| == nVertices && InColours(q, nCores) && Convex(q) && x == OneHot(q, nCores)
  {
    if Feasible(x, nVertices, nCores) {
      var q := AssignmentIsColouring(x, nCores);
      OneHotTripleFeasibleIffConvex(q, nCores);
    }
    if exists q :: |q| == nVertices && InColours(q, nCores) && Convex(q) && x == OneHot(q, nCores) {
      var q :| |q| == nVertices && InColours(q, nCores) && Convex(q) && x == OneHot(q, nCores);
      ConvexOneHotFeasible(q, q, nCores);
    }
  }

  // ---------------------------------------------------------------------
  // Run statistics
  // ---------------------------------------------------------------------

  /** The statistics record. `heuristicSolution` is the heuristic's 0/1 grid;
      the engine later overwrites it in place with better solutions. */
  class Statistics {
    var nBBNodes: int
    var heuristicSolVal: real
    var objectiveValue: real
    var firstLinearRelaxVal: real
    var heuristicSolution: array2<int>

    constructor ()
      ensures nBBNodes == 0 && heuristicSolVal == 0.0 && objectiveValue == 0.0
      ensures firstLinearRelaxVal == 0.0
      ensures heuristicSolution.Length0 == 0 && heuristicSolution.Length1 == 0
    {
      nBBNodes := 0;
      heuristicSolVal := 0.0;
      objectiveValue := 0.0;
      firstLinearRelaxVal := 0.0;
      heuristicSolution := new int[0, 0];
    }
  }
}
