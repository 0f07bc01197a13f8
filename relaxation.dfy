/** What the search reads from a solved linear relaxation: the choice of the
    branching variable, the integrality test and the rounding of an integral
    solution into a 0/1 grid. Values are reals; the source's doubles are not
    modelled bit for bit. */
module Relaxation {
  import opened Recoloring

  /** The tolerance used for integrality and for pruning. */
  const Eps: real := 0.000001

  function Abs(x: real): real
  {
    if x < 0.0 then -x else x
  }

  /** Distance of a value from one half; the smaller, the more fractional. */
  function Frac(v: real): real
  {
    Abs(v - 0.5)
  }

  /** Every value lies within the tolerance of 0 or of 1. */
  predicate Integral(x: seq<seq<real>>)
  {
    forall i, j :: 0 <= i < |x| && 0 <= j < |x[i]| ==> x[i][j] < Eps || x[i][j] > 1.0 - Eps
  }

  /** Cell (p, q) comes before cell (i, j) in row-major order. */
  predicate Before(p: int, q: int, i: int, j: int)
  {
    p < i || (p == i && q < j)
  }

  /** `v` is the branching variable of `x`: the row-major-first cell whose
      value is closest to one half, that value lying between Eps and 1 - Eps. */
  predicate IsBranchingVar(x: seq<seq<real>>, nVertices: int, nCores: int, v: (int, int))
    requires Shaped(x, nVertices, nCores)
  {
    var (bi, bj) := v;
    0 <= bi < nVertices && 0 <= bj < nCores &&
    Eps <= x[bi][bj] <= 1.0 - Eps &&
    (forall p, q :: 0 <= p < nVertices && 0 <= q < nCores ==> Frac(x[bi][bj]) <= Frac(x[p][q])) &&
    (forall p, q :: 0 <= p < nVertices && 0 <= q < nCores && Before(p, q, bi, bj) ==>
       Frac(x[bi][bj]) < Frac(x[p][q]))
  }

  /** The branching variable. It is `None` exactly when the solution is
      integral, since a value outside [Eps, 1 - Eps] at the cell closest to
      one half puts every value there. */
  method SelectFracVar(x: seq<seq<real>>, nVertices: int, nCores: int) returns (r: Option<(int, int)>)
    requires nVertices >= 1 && nCores >= 1 && Shaped(x, nVertices, nCores)
    ensures r.None? <==> Integral(x)
    ensures r.Some? ==> IsBranchingVar(x, nVertices, nCores, r.value)
  {
    var bi, bj := 0, 0;
    var maisFrac := x[0][0];
    for i := 0 to nVertices
      invariant 0 <= bi < nVertices && 0 <= bj < nCores && maisFrac == x[bi][bj]
      invariant Before(bi, bj, i, 0) || (bi == 0 && bj == 0)
      invariant forall p, q :: 0 <= p < i && 0 <= q < nCores ==> Frac(maisFrac) <= Frac(x[p][q])
      invariant forall p, q :: 0 <= p < nVertices && 0 <= q < nCores && Before(p, q, bi, bj) ==>
        Frac(maisFrac) < Frac(x[p][q])
    {
      for j := 0 to nCores
        invariant 0 <= bi < nVertices && 0 <= bj < nCores && maisFrac == x[bi][bj]
        invariant Before(bi, bj, i, j) || (bi == 0 && bj == 0)
        invariant forall p, q :: 0 <= p < i && 0 <= q < nCores ==> Frac(maisFrac) <= Frac(x[p][q])
        invariant forall q :: 0 <= q < j ==> Frac(maisFrac) <= Frac(x[i][q])
        invariant forall p, q :: 0 <= p < nVertices && 0 <= q < nCores && Before(p, q, bi, bj) ==>
          Frac(maisFrac) < Frac(x[p][q])
      {
        if Frac(x[i][j]) < Frac(maisFrac) {
          bi, bj := i, j;
          maisFrac := x[i][j];
        }
      }
    }
    if maisFrac < Eps || maisFrac > 1.0 - Eps {
      r := None;
    } else {
      r := Some((bi, bj));
    }
  }

  /** The solution is integral exactly when no branching variable exists. */
  method IsInteger(x: seq<seq<real>>, nVertices: int, nCores: int) returns (b: bool)
    requires nVertices >= 1 && nCores >= 1 && Shaped(x, nVertices, nCores)
    ensures b <==> Integral(x)
  {
    var r := SelectFracVar(x, nVertices, nCores);
    b := r.None?;
  }

  /** Rounds the relaxation solution into `xInt`: 1 where the value exceeds
      Eps, 0 elsewhere. */
  method CopySolution(x: seq<seq<real>>, nVertices: int, nCores: int, xInt: array2<int>)
    requires Shaped(x, nVertices, nCores)
    requires xInt.Length0 == nVertices && xInt.Length1 == nCores
    modifies xInt
    ensures forall i, j :: 0 <= i < nVertices && 0 <= j < nCores ==>
      xInt[i, j] == if x[i][j] > Eps then 1 else 0
  {
    for i := 0 to nVertices
      invariant forall p, q :: 0 <= p < i && 0 <= q < nCores ==>
        xInt[p, q] == if x[p][q] > Eps then 1 else 0
    {
      for j := 0 to nCores
        invariant forall p, q :: 0 <= p < i && 0 <= q < nCores ==>
          xInt[p, q] == if x[p][q] > Eps then 1 else 0
        invariant forall q :: 0 <= q < j ==> xInt[i, q] == if x[i][q] > Eps then 1 else 0
      {
        if x[i][j] > Eps {
          xInt[i, j] := 1;
        } else {
          xInt[i, j] := 0;
        }
      }
    }
  }

  /** Rounding an integral solution whose values respect the variable
      bounds [0, 1] gives the 0/1 grid within the tolerance of it everywhere. */
  lemma RoundingIntegral(x: seq<seq<real>>, xInt: seq<seq<int>>, nVertices: int, nCores: int)
    requires Shaped(x, nVertices, nCores) && Shaped(xInt, nVertices, nCores) && Integral(x)
    requires forall i, j :: 0 <= i < nVertices && 0 <= j < nCores ==> 0.0 <= x[i][j] <= 1.0
    requires forall i, j :: 0 <= i < nVertices && 0 <= j < nCores ==>
      xInt[i][j] == if x[i][j] > Eps then 1 else 0
    ensures Binary(xInt)
    ensures forall i, j :: 0 <= i < nVertices && 0 <= j < nCores ==>
      Abs(x[i][j] - xInt[i][j] as real) < Eps
  {
  }
}
