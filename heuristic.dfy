/** The greedy heuristic that seeds the search with an incumbent: pick a
    majority colour, keep the leading run of the first colour and the trailing
    run of the last colour, repaint every other position to the majority
    colour, and record the 0/1 grid of the result and its cost.

    The source does all of this in one routine; here each of its loops is a
    method proved against a declarative statement of what that loop computes,
    `HeuristicPath` strings them together, and `Heuristica` writes the
    result to the statistics record. */
module Heuristic {
  import opened Recoloring

  /** Colour index `k` (0-based) paints the first or the last position. */
  predicate PaintsEnd(k: int, first: int, last: int)
  {
    k + 1 == first || k + 1 == last
  }

  /** `k` is the colour the tie-breaking scan settles on: a colour of maximal
      count that is the smallest tied colour painting neither end of the path,
      or, when every tied colour paints an end, the smallest tied colour. */
  predicate IsPreferredMajority(counts: seq<int>, first: int, last: int, k: int)
  {
    0 <= k < |counts| &&
    (forall j :: 0 <= j < |counts| ==> counts[j] <= counts[k]) &&
    (!PaintsEnd(k, first, last) ==>
       forall j :: 0 <= j < k && counts[j] == counts[k] ==> PaintsEnd(j, first, last)) &&
    (PaintsEnd(k, first, last) ==>
       forall j :: 0 <= j < |counts| && j != k && counts[j] == counts[k] ==>
         k < j && PaintsEnd(j, first, last))
  }

  /** The tie-breaking rule names exactly one colour. */
  lemma PreferredMajorityUnique(counts: seq<int>, first: int, last: int, k: int, k': int)
    requires IsPreferredMajority(counts, first, last, k) && IsPreferredMajority(counts, first, last, k')
    ensures k == k'
  {
  }

  /** `n` is the length of the leading run of the first colour, the run
      stopping at the first position that has another colour or has the
      majority colour `corMaior + 1`. */
  predicate IsLeadingRun(path: seq<int>, corMaior: int, n: int)
    requires |path| >= 1
  {
    0 <= n <= |path| &&
    (forall p :: 0 <= p < n ==> path[p] == path[0] && path[p] - 1 != corMaior) &&
    (n < |path| ==> path[n] != path[0] || path[n] - 1 == corMaior)
  }

  /** `m` is the length of the trailing run of the last colour, stopping in
      the same way; it is 0 when the first and last colours are equal. */
  predicate IsTrailingRun(path: seq<int>, corMaior: int, m: int)
    requires |path| >= 1
  {
    var last := path[|path| - 1];
    0 <= m <= |path| &&
    (path[0] == last ==> m == 0) &&
    (forall p :: |path| - m <= p < |path| ==> path[p] == last && path[p] - 1 != corMaior) &&
    (m < |path| && path[0] != last ==>
       path[|path| - 1 - m] != last || path[|path| - 1 - m] - 1 == corMaior)
  }

  /** `novo` keeps the positions of the two preserved runs and gives every
      other position the majority colour. */
  predicate IsRepainted(path: seq<int>, corMaior: int, ini: int, fim: int, novo: seq<int>)
  {
    |novo| == |path| &&
    forall i :: 0 <= i < |path| ==>
      novo[i] == if i < ini || |path| - i <= fim then path[i] else corMaior + 1
  }

  /** The colour histogram of a path: entry j counts the positions of colour j+1. */
  function Histogram(path: seq<int>, nCores: nat): seq<int>
  {
    seq(nCores, j => Occurrences(path, j + 1))
  }

  /** What the heuristic makes of `path`: the colour the tie-breaking rule
      prefers in the histogram, the two runs preserved for that colour, and
      the path repainted around them. */
  predicate IsHeuristicResult(path: seq<int>, nCores: nat, corMaior: int, ini: int, fim: int, novo: seq<int>)
    requires |path| >= 1
  {
    IsPreferredMajority(Histogram(path, nCores), path[0], path[|path| - 1], corMaior) &&
    IsLeadingRun(path, corMaior, ini) && IsTrailingRun(path, corMaior, fim) &&
    IsRepainted(path, corMaior, ini, fim, novo)
  }

  /** The leading run is determined by the path and the majority colour. */
  lemma LeadingRunUnique(path: seq<int>, corMaior: int, n: int, n': int)
    requires |path| >= 1 && IsLeadingRun(path, corMaior, n) && IsLeadingRun(path, corMaior, n')
    ensures n == n'
  {
  }

  /** The trailing run is determined by the path and the majority colour. */
  lemma TrailingRunUnique(path: seq<int>, corMaior: int, m: int, m': int)
    requires |path| >= 1 && IsTrailingRun(path, corMaior, m) && IsTrailingRun(path, corMaior, m')
    ensures m == m'
  {
  }

  /** The heuristic's result is a function of the path: two results that
      both meet the characterisation agree in colour, runs and new path. */
  lemma HeuristicResultUnique(path: seq<int>, nCores: nat, c: int, ini: int, fim: int, novo: seq<int>,
                              c': int, ini': int, fim': int, novo': seq<int>)
    requires |path| >= 1
    requires IsHeuristicResult(path, nCores, c, ini, fim, novo)
    requires IsHeuristicResult(path, nCores, c', ini', fim', novo')
    ensures c == c' && ini == ini' && fim == fim' && novo == novo'
  {
    PreferredMajorityUnique(Histogram(path, nCores), path[0], path[|path| - 1], c, c');
    LeadingRunUnique(path, c, ini, ini');
    TrailingRunUnique(path, c, fim, fim');
  }

  // ---------------------------------------------------------------------
  // The phases of the heuristic
  // ---------------------------------------------------------------------

  /** The colour histogram: counts[j] is the number of positions coloured j+1. */
  method CountColours(path: seq<int>, nCores: int) returns (counts: seq<int>)
    requires nCores >= 0
    requires forall i :: 0 <= i < |path| ==> 1 <= path[i] <= nCores
    ensures |counts| == nCores
    ensures forall j :: 0 <= j < nCores ==> counts[j] == Occurrences(path, j + 1)
  {
    counts := [];
    for c := 0 to nCores
      invariant |counts| == c
      invariant forall j :: 0 <= j < c ==> counts[j] == 0
    {
      counts := counts + [0];
    }
    for p := 0 to |path|
      invariant |counts| == nCores
      invariant forall j :: 0 <= j < nCores ==> counts[j] == Occurrences(path[..p], j + 1)
    {
      assert path[..p + 1][..p] == path[..p];
      counts := counts[path[p] - 1 := counts[path[p] - 1] + 1];
    }
    assert path[..|path|] == path;
  }

  /** The majority scan with its tie-breaking rule; `contMaior` is the count
      of the colour picked, and no colour has a larger count. */
  method PickMajority(counts: seq<int>, first: int, last: int) returns (corMaior: int, contMaior: int)
    requires |counts| >= 1
    requires forall j :: 0 <= j < |counts| ==> counts[j] >= 0
    ensures IsPreferredMajority(counts, first, last, corMaior)
    ensures contMaior == counts[corMaior]
  {
    corMaior, contMaior := 0, 0;
    for i := 0 to |counts|
      invariant i == 0 ==> corMaior == 0 && contMaior == 0
      invariant i > 0 ==> IsPreferredMajority(counts[..i], first, last, corMaior)
      invariant i > 0 ==> contMaior == counts[corMaior]
    {
      if contMaior < counts[i] {
        contMaior, corMaior := counts[i], i;
      } else if contMaior == counts[i] {
        if first == corMaior + 1 && last == corMaior + 1 {
          contMaior, corMaior := counts[i], i;
        } else if first == corMaior + 1 || last == corMaior + 1 {
          if first == i + 1 || last == i + 1 {
            continue;
          } else {
            contMaior, corMaior := counts[i], i;
          }
        }
      }
    }
    assert counts[..|counts|] == counts;
  }

  /** The preserved leading run. */
  method LeadingRun(path: seq<int>, corMaior: int) returns (naoTrocaIni: int)
    requires |path| >= 1
    ensures IsLeadingRun(path, corMaior, naoTrocaIni)
  {
    naoTrocaIni := 0;
    var corIni := path[0];
    var p := 0;
    while p < |path|
      invariant 0 <= p <= |path| && naoTrocaIni == p
      invariant forall t :: 0 <= t < p ==> path[t] == corIni && path[t] - 1 != corMaior
    {
      var item := path[p];
      if item - 1 == corMaior || item != corIni {
        break;
      }
      naoTrocaIni := naoTrocaIni + 1;
      p := p + 1;
    }
  }

  /** The preserved trailing run, scanned from the last position backwards. */
  method TrailingRun(path: seq<int>, corMaior: int) returns (naoTrocaFim: int)
    requires |path| >= 1
    ensures IsTrailingRun(path, corMaior, naoTrocaFim)
  {
    naoTrocaFim := 0;
    var corIni, corFim := path[0], path[|path| - 1];
    var i := |path| - 1;
    while i >= 0
      invariant -1 <= i < |path| && naoTrocaFim == |path| - 1 - i
      invariant naoTrocaFim > 0 ==> corIni != corFim
      invariant forall t :: i < t < |path| ==> path[t] == corFim && path[t] - 1 != corMaior
    {
      if path[i] - 1 == corMaior || path[i] != corFim || corIni == corFim {
        break;
      }
      naoTrocaFim := naoTrocaFim + 1;
      i := i - 1;
    }
  }

  /** The new path: the preserved runs keep their colour, all else is repainted. */
  method Repaint(path: seq<int>, corMaior: int, naoTrocaIni: int, naoTrocaFim: int)
    returns (novoCaminho: seq<int>)
    ensures IsRepainted(path, corMaior, naoTrocaIni, naoTrocaFim, novoCaminho)
  {
    novoCaminho := [];
    for i := 0 to |path|
      invariant |novoCaminho| == i
      invariant forall t :: 0 <= t < i ==>
        novoCaminho[t] == if t < naoTrocaIni || |path| - t <= naoTrocaFim then path[t] else corMaior + 1
    {
      if i < naoTrocaIni || |path| - i <= naoTrocaFim {
        novoCaminho := novoCaminho + [path[i]];
      } else {
        novoCaminho := novoCaminho + [corMaior + 1];
      }
    }
  }

  /** The 0/1 grid of the new path, in a fresh array. */
  method OneHotGrid(novoCaminho: seq<int>, nVertices: int, nCores: int) returns (grid: array2<int>)
    requires nVertices == |novoCaminho| && nCores >= 0
    ensures fresh(grid)
    ensures Rows(grid) == OneHot(novoCaminho, nCores)
  {
    grid := new int[nVertices, nCores];
    for i := 0 to nVertices
      invariant forall r, j :: 0 <= r < i && 0 <= j < nCores ==>
        grid[r, j] == if j + 1 == novoCaminho[r] then 1 else 0
    {
      for j := 0 to nCores
        invariant forall r, c :: 0 <= r < i && 0 <= c < nCores ==>
          grid[r, c] == if c + 1 == novoCaminho[r] then 1 else 0
        invariant forall c :: 0 <= c < j ==> grid[i, c] == if c + 1 == novoCaminho[i] then 1 else 0
      {
        if j + 1 == novoCaminho[i] {
          grid[i, j] := 1;
        } else {
          grid[i, j] := 0;
        }
      }
    }
    var rows, want := Rows(grid), OneHot(novoCaminho, nCores);
    forall i | 0 <= i < nVertices
      ensures rows[i] == want[i]
    {
      assert forall j :: 0 <= j < nCores ==> rows[i][j] == want[i][j];
    }
  }

  /** The heuristic's colouring and its cost: the colour counts, the
      majority pick, the two preserved runs and the repainting, in the
      source's order. The result is the one the characterisation names, the
      cost is the source's formula, and the colouring's grid is a feasible
      solution of the integer model whose objective is that cost. */
  method HeuristicPath(nVertices: int, nCores: int, path: seq<int>)
    returns (novoCaminho: seq<int>, cost: int, corMaior: int, naoTrocaIni: int, naoTrocaFim: int)
    requires ValidInstance(nVertices, nCores, path)
    ensures IsHeuristicResult(path, nCores, corMaior, naoTrocaIni, naoTrocaFim, novoCaminho)
    ensures cost == |path| - Occurrences(path, corMaior + 1) - (naoTrocaIni + naoTrocaFim)
    ensures |novoCaminho| == nVertices
    ensures Feasible(OneHot(novoCaminho, nCores), nVertices, nCores)
    ensures cost == Objective(path, OneHot(novoCaminho, nCores))
  {
    var contCores := CountColours(path, nCores);
    assert contCores == Histogram(path, nCores);
    var contMaior;
    corMaior, contMaior := PickMajority(contCores, path[0], path[|path| - 1]);
    naoTrocaIni := LeadingRun(path, corMaior);
    naoTrocaFim := TrailingRun(path, corMaior);
    novoCaminho := Repaint(path, corMaior, naoTrocaIni, naoTrocaFim);
    cost := |path| - contMaior - (naoTrocaIni + naoTrocaFim);
    RepaintedGrid(path, nCores, corMaior, naoTrocaIni, naoTrocaFim, novoCaminho);
  }

  /** The heuristic stores the 0/1 grid of its colouring as a fresh array in
      the statistics record, together with its cost. The colouring is the
      one the characterisation names (returned as ghost outputs, since the
      source keeps it in locals), the grid is a feasible solution of the
      integer model, and the recorded cost is that grid's objective. */
  method Heuristica(nVertices: int, nCores: int, path: seq<int>, stats: Statistics)
    returns (ghost novoCaminho: seq<int>, ghost corMaior: int, ghost naoTrocaIni: int, ghost naoTrocaFim: int)
    requires ValidInstance(nVertices, nCores, path)
    modifies stats`heuristicSolution, stats`heuristicSolVal
    ensures fresh(stats.heuristicSolution)
    ensures IsHeuristicResult(path, nCores, corMaior, naoTrocaIni, naoTrocaFim, novoCaminho)
    ensures Rows(stats.heuristicSolution) == OneHot(novoCaminho, nCores)
    ensures stats.heuristicSolVal == (|path| - Occurrences(path, corMaior + 1) - (naoTrocaIni + naoTrocaFim)) as real
    ensures Feasible(Rows(stats.heuristicSolution), nVertices, nCores)
    ensures stats.heuristicSolVal == Objective(path, Rows(stats.heuristicSolution)) as real
  {
    var caminho, cost, cor, ini, fim := HeuristicPath(nVertices, nCores, path);
    var grid := OneHotGrid(caminho, nVertices, nCores);
    stats.heuristicSolution := grid;
    stats.heuristicSolVal := cost as real;
    novoCaminho, corMaior, naoTrocaIni, naoTrocaFim := caminho, cor, ini, fim;
  }

  // ---------------------------------------------------------------------
  // What the heuristic's result means
  // ---------------------------------------------------------------------

  /** The two preserved runs never overlap. */
  lemma RunsDisjoint(path: seq<int>, corMaior: int, ini: int, fim: int)
    requires |path| >= 1
    requires IsLeadingRun(path, corMaior, ini) && IsTrailingRun(path, corMaior, fim)
    ensures ini + fim <= |path|
  {
    if fim > 0 {
      var p := |path| - fim;
      assert path[p] == path[|path| - 1] && path[p] != path[0];
    }
  }

  /** The repainted path is convex: a run of the first colour, a block of the
      majority colour, a run of the last colour, the three colours distinct. */
  lemma RepaintedConvex(path: seq<int>, corMaior: int, ini: int, fim: int, novo: seq<int>)
    requires |path| >= 1
    requires IsLeadingRun(path, corMaior, ini) && IsTrailingRun(path, corMaior, fim)
    requires IsRepainted(path, corMaior, ini, fim, novo)
    ensures Convex(novo)
  {
  }

  /** The grid of the repainted path is a feasible solution of the integer
      model, and its objective counts the positions that are neither of the
      majority colour nor in one of the two preserved runs. */
  lemma RepaintedGrid(path: seq<int>, nCores: int, corMaior: int, ini: int, fim: int, novo: seq<int>)
    requires ValidInstance(|path|, nCores, path) && 0 <= corMaior < nCores
    requires IsLeadingRun(path, corMaior, ini) && IsTrailingRun(path, corMaior, fim)
    requires IsRepainted(path, corMaior, ini, fim, novo)
    ensures Feasible(OneHot(novo, nCores), |path|, nCores)
    ensures Objective(path, OneHot(novo, nCores)) == |path| - Occurrences(path, corMaior + 1) - (ini + fim)
  {
    RepaintedConvex(path, corMaior, ini, fim, novo);
    RepaintedCost(path, corMaior, ini, fim, novo);
    ConvexOneHotFeasible(path, novo, nCores);
  }

  /** Number of positions below `k` that the heuristic repaints. */
  function MiddleBelow(n: int, ini: int, fim: int, k: int): int
  {
    if k <= ini then 0 else if k <= n - fim then k - ini else n - fim - ini
  }

  lemma {:induction false} RepaintedCostPrefix(path: seq<int>, corMaior: int, ini: int, fim: int,
                                               novo: seq<int>, k: nat)
    requires |path| >= 1 && k <= |path|
    requires IsLeadingRun(path, corMaior, ini) && IsTrailingRun(path, corMaior, fim)
    requires IsRepainted(path, corMaior, ini, fim, novo)
    requires ini + fim <= |path|
    ensures Changed(path[..k], novo[..k]) ==
            MiddleBelow(|path|, ini, fim, k) - Occurrences(path[..k], corMaior + 1)
  {
    if k > 0 {
      RepaintedCostPrefix(path, corMaior, ini, fim, novo, k - 1);
      assert path[..k][..k - 1] == path[..k - 1];
      assert novo[..k][..k - 1] == novo[..k - 1];
    }
  }

  /** The heuristic's cost formula, |path| - count(majority) - preserved,
      is the number of positions it recolours. */
  lemma RepaintedCost(path: seq<int>, corMaior: int, ini: int, fim: int, novo: seq<int>)
    requires |path| >= 1
    requires IsLeadingRun(path, corMaior, ini) && IsTrailingRun(path, corMaior, fim)
    requires IsRepainted(path, corMaior, ini, fim, novo)
    ensures Changed(path, novo) == |path| - Occurrences(path, corMaior + 1) - (ini + fim)
  {
    RunsDisjoint(path, corMaior, ini, fim);
    RepaintedCostPrefix(path, corMaior, ini, fim, novo, |path|);
    assert path[..|path|] == path && novo[..|novo|] == novo;
  }

  /** The four-position path 1,2,1,2 with two colours: colour 1 is picked,
      nothing is kept at the front, the final 2 is kept at the back, the
      new path is 1,1,1,2 and the cost is 1. */
  method FourPositionExample()
  {
    var path := [1, 2, 1, 2];
    var counts := CountColours(path, 2);
    assert counts == [2, 2] by {
      assert path[..3] == [1, 2, 1] && [1, 2, 1][..2] == [1, 2] && [1, 2][..1] == [1] && [1][..0] == [];
      assert Occurrences([1], 1) == 1 && Occurrences([1], 2) == 0;
      assert Occurrences([1, 2], 1) == 1 && Occurrences([1, 2], 2) == 1;
      assert Occurrences([1, 2, 1], 1) == 2 && Occurrences([1, 2, 1], 2) == 1;
    }
    var corMaior, contMaior := PickMajority(counts, 1, 2);
    assert counts[0] == counts[1] && PaintsEnd(0, 1, 2) && PaintsEnd(1, 1, 2);
    assert corMaior == 0 && contMaior == 2;
    var ini := LeadingRun(path, corMaior);
    assert ini == 0;
    var fim := TrailingRun(path, corMaior);
    assert fim == 1;
    var novo := Repaint(path, corMaior, ini, fim);
    assert novo == [1, 1, 1, 2];
    RepaintedCost(path, corMaior, ini, fim, novo);
    assert |path| - contMaior - (ini + fim) == 1 == Changed(path, novo);
  }
}
