# Convex recoloring: heuristic and branch and bound

`Program.cs` solves the convex recoloring problem on a coloured path: the
positions `0 .. nVertices-1` carry colours in `1 .. nCores`, and the goal is
to recolour as few positions as possible so that every colour occupies one
contiguous block. The program works on the integer model with variables
`X[i][j]` ("position `i` gets colour `j+1`"). The objective is the sum of
`X[i][j]` over the colours a position does not already have. The
constraints say that each position gets exactly one colour and that
`X[p][k] - X[q][k] + X[r][k] <= 1` for `p < q < r`.

The program has two parts:

- A greedy heuristic (`Heuristica`). It picks a majority colour, keeps the
  leading run of the first colour and the trailing run of the last colour,
  and repaints everything else with the majority colour. It stores the 0/1
  grid and its cost in the statistics record.
- A branch and bound (`BranchAndBound`) that always expands the open node
  with the largest upper bound `UB`. It uses the linear relaxation of the
  same model and starts from the heuristic's solution.
  Each node fixes one variable relative to its parent. `update_UB`
  propagates the minimum of the children's bounds up the tree. The search
  stops when the root's bound reaches the incumbent value plus the
  tolerance `e`.

The Dafny project has five modules:

- `Recoloring` (`recoloring.dfy`): the instance and the integer model. It
  defines the objective, the two constraint families and the statistics
  record. It proves that a colouring's 0/1 grid satisfies the triple
  constraints exactly when the colouring is convex, and that the grid's
  objective counts the recoloured positions.
- `Heuristic` (`heuristic.dfy`): the heuristic, one method per loop of the
  source. Each method is proved against a declarative statement of what its
  loop computes. The main results are proved about those statements: the
  repainted path is convex, its grid is feasible, and the source's cost
  formula equals that grid's objective.
- `SearchTree` (`search_tree.dfy`): the node record of the search tree, kept
  as an arena with index links. It defines the tree invariant, the ancestor
  relation, bound propagation (`update_UB`) and the variable fixes collected
  along a node's ancestor chain.
- `Relaxation` (`relaxation.dfy`): what the engine reads from a relaxation
  solution. This is the choice of the branching variable, the integrality
  test and the rounding into a 0/1 grid.
- `BranchAndBound` (`branch_and_bound.dfy`): the engine, modelled as a
  class `Search`.
  - The class holds the node arena, the open list `L`, the incumbent value
    `z_`, the root, and the arrays of variable bounds.
  - `bestSol` is the statistics record's heuristic array itself. The source
    writes new incumbents into that array in place.
  - The relaxation solver is a function from the lower and upper bound
    grids to an answer (status, objective value, solution grid).
  - The methods that handle one node (`HandleAnswer`, `SolveNode`,
    `ProcessNode`) tie their new state to the pure transition
    `AfterAnswer`, whose properties are proved on values. `CheckRootBound`
    is tied to `Checked`, the state with the root bound recomputed. `Pass`
    is tied to `PassStep`, which is one `Checked` followed by one
    `AfterAnswer`. `Run` returns the trace of states its passes went
    through, and `Traced` states that consecutive states are related by
    `PassStep`.

Two details of the code that the model follows:

- The root-bound stop (`Program.cs:406`) and the bound pruning
  (`Program.cs:446`) compare with `z_ + e`.
- On the path `1,2,1,2` with two colours, the code picks colour 1, keeps
  no leading run, keeps the final 2, and costs 1.
  `Heuristic.FourPositionExample` works through this case.

## Model

| member | source | states |
|---|---|---|
| Recoloring.RowCost | Program.cs:117-131 | the objective terms of a position are its row sum less the entry of its original colour, and are never negative on a row of non-negative entries |
| Recoloring.Objective | Program.cs:115-133 | the objective sums those terms over all positions; on a 0/1 grid with one colour per position it lies between 0 and the number of positions |
| Recoloring.OneColourPerPosition | Program.cs:135-144 | the first constraint family: every row of the grid sums to 1 |
| Recoloring.TripleFeasible | Program.cs:146-159 | the second constraint family: X[p][k] - X[q][k] + X[r][k] <= 1 for all p < q < r and every colour k, the same index ranges as the source's loops |
| Recoloring.BinaryRowSum | Program.cs:135-144 | a 0/1 row summing to 1 is the row of exactly one colour, and one summing to 0 is all zeros |
| Recoloring.AssignmentIsColouring | Program.cs:114-144 | a 0/1 grid satisfying the first constraint family is the grid of some colouring with every colour in 1..nCores |
| Recoloring.FeasibleIffConvexColouring | Program.cs:114-159 | a grid is a feasible solution of the integer model if and only if it is the grid of a convex colouring in range |
| Recoloring.OneHotRowCost | Program.cs:117-131 | the objective terms of the row of a position coloured `v` add up to 1 when `v` differs from the original colour, else 0 |
| Recoloring.OneHotRowSum | Program.cs:136-144 | the row of a colour in range sums to 1, so the one-colour-per-position constraint holds |
| Recoloring.ObjectiveOfOneHot | Program.cs:117-133 | the objective of a colouring's grid is the number of positions whose colour changed |
| Recoloring.OneHotTripleFeasibleIffConvex | Program.cs:146-159 | a colouring's grid satisfies every triple constraint X[p][k] - X[q][k] + X[r][k] <= 1 if and only if each colour occupies one contiguous block |
| Recoloring.ConvexOneHotFeasible | Program.cs:114-159 | the grid of a convex colouring in range is a feasible 0/1 solution of the model, and its objective counts the recoloured positions |
| Recoloring.Statistics.constructor | Program.cs:57-74 | a fresh statistics record has zero node count and zero values |
| Heuristic.CountColours | Program.cs:164-174 | counts[j] is the number of positions of colour j+1, for every colour |
| Heuristic.PickMajority | Program.cs:176-206 | the chosen colour has maximal count; it is the smallest tied colour that paints neither end of the path, or the smallest tied colour when all tied colours paint an end; contMaior is its count |
| Heuristic.PreferredMajorityUnique | Program.cs:176-206 | the tie-breaking rule names exactly one colour |
| Heuristic.LeadingRun | Program.cs:208-219 | the kept prefix is the maximal run of the first colour that avoids the majority colour |
| Heuristic.TrailingRun | Program.cs:208-227 | the kept suffix is the maximal run of the last colour that avoids the majority colour, and is empty when both ends have the same colour |
| Heuristic.Repaint | Program.cs:229-239 | the new path keeps the two runs and has the majority colour everywhere else |
| Heuristic.OneHotGrid | Program.cs:241-252 | a fresh array holding the 0/1 grid of the new path |
| Heuristic.RunsDisjoint | Program.cs:208-227 | the kept prefix and suffix never overlap |
| Heuristic.RepaintedConvex | Program.cs:208-239 | the repainted path is convex |
| Heuristic.RepaintedCost | Program.cs:229-254 | the number of recoloured positions is length - count(majority) - (prefix + suffix), the source's cost formula |
| Heuristic.RepaintedGrid | Program.cs:229-254 | the repainted path's grid is feasible and its objective is the source's cost formula |
| Heuristic.LeadingRunUnique | Program.cs:208-219 | the kept prefix is determined by the path and the majority colour |
| Heuristic.TrailingRunUnique | Program.cs:208-227 | the kept suffix is determined by the path and the majority colour |
| Heuristic.HeuristicResultUnique | Program.cs:162-239 | the majority colour, both kept runs and the new path are determined by the path, so the heuristic's contract names one colouring |
| Heuristic.HeuristicPath | Program.cs:162-254 | returns the majority colour chosen by the tie-breaking rule on the colour histogram, the maximal leading and trailing runs, and the path repainted from them; the cost is length - count(majority) - (prefix + suffix), and it is the objective of the new path's grid, which is feasible |
| Heuristic.Heuristica | Program.cs:162-255 | the statistics record receives a fresh array holding the grid of the heuristic's repainted path (majority colour, leading and trailing runs as in HeuristicPath); the grid is feasible and the recorded value is the source's cost formula and the grid's objective |
| SearchTree.SameShapeKeepsTree | Program.cs:376-382 | changing only node bounds keeps the tree links and the tree invariant |
| SearchTree.SiblingsDisjoint | Program.cs:457-460 | no node descends from both children of a split node |
| SearchTree.DescendantUnderChild | Program.cs:457-460 | a proper descendant of a node lies under one of that node's children, so the node has been split |
| SearchTree.EveryNodeUnderRoot | Program.cs:393-395 | every node of the search descends from the root created first |
| SearchTree.Propagate | Program.cs:376-382 | bound propagation changes only bounds, never the links |
| SearchTree.PropagateFrame | Program.cs:376-382 | propagation from n leaves unchanged every node outside n's subtree and every unsplit node |
| SearchTree.PropagateSettles | Program.cs:376-382 | after propagation from n, every split node of n's subtree holds the minimum of its children's bounds |
| SearchTree.PropagateIdempotent | Program.cs:376-382 | propagation over a settled subtree changes nothing |
| SearchTree.PropagateFromRoot | Program.cs:402-405 | propagating from the root keeps the tree valid, settles every split node to the minimum of its children, leaves the leaves alone, and a second propagation changes nothing |
| SearchTree.FixedOnChain | Program.cs:321-332 | the recursive walk of add_branch_contraints: a variable is fixed for n when a non-root node on the chain fixes it; such a node is never stored after n |
| SearchTree.FixedOnChainIff | Program.cs:321-332 | the fixes applied for node n are exactly those of the non-root nodes on n's ancestor chain, n included |
| Relaxation.SelectFracVar | Program.cs:334-355 | the result is absent exactly when every value is below Eps or above 1 - Eps; otherwise it is the row-major-first cell closest to 1/2, whose value lies within [Eps, 1-Eps] |
| Relaxation.IsInteger | Program.cs:357-360 | true exactly when every value is below Eps or above 1 - Eps (values outside [0, 1] are not rejected, as in the source) |
| Relaxation.CopySolution | Program.cs:362-374 | every cell becomes 1 where the relaxation value exceeds Eps, 0 elsewhere |
| Relaxation.RoundingIntegral | Program.cs:362-374 | rounding an integral solution in [0, 1] yields a 0/1 grid within Eps of it |
| BranchAndBound.SelectedAtUnique | Program.cs:283-300 | at most one position of the open list is the one select_BB_node takes |
| BranchAndBound.RemovedKeepsOpen | Program.cs:297 | removing the selected entry keeps the open list valid and drops every copy of that node |
| BranchAndBound.Split | Program.cs:457-460 | splitting appends exactly the two children |
| BranchAndBound.SplitKeepsTree | Program.cs:457-460 | splitting an unsplit node on a grid variable keeps the tree invariant |
| BranchAndBound.SplitKeepsOpen | Program.cs:457-460 | the open list extended with the two new children stays valid |
| BranchAndBound.SplitKeepsFixes | Program.cs:457-460 | splitting changes no existing node's fixes |
| BranchAndBound.SplitChildFixes | Program.cs:321-332 | the left child's fixes are its parent's plus the variable fixed to 1, the right child's are its parent's plus the variable fixed to 0 |
| BranchAndBound.LeftChildBounds | Program.cs:321-332 | the left child's subproblem has the parent's lower bounds with the branching variable raised to 1, and the parent's upper bounds |
| BranchAndBound.RightChildBounds | Program.cs:321-332 | the right child's subproblem has the parent's lower bounds, and the parent's upper bounds with the branching variable lowered to 0 |
| BranchAndBound.Classify | Program.cs:431-454 | a solved node is dropped exactly when the relaxation is infeasible, pruned exactly when its value is at least z + Eps, becomes the incumbent exactly when its value is below z + Eps and its solution integral, and is split otherwise |
| BranchAndBound.Checked | Program.cs:402-405 | recomputing the root bound changes only node bounds, not the links, the open list or z |
| BranchAndBound.TraceExtend | Program.cs:398-461 | a trace of passes extended by one more pass from its last state is still a trace of passes |
| BranchAndBound.AfterAnswer | Program.cs:428-460 | after one relaxation answer, the node counter grows exactly with the arena, the incumbent value rises by less than Eps if at all, and any feasible answer is recorded as the node's bound and fixes the root |
| BranchAndBound.Search.constructor | Program.cs:386-397 | the incumbent is the heuristic's array and value, the arena holds the root with bound int.MaxValue, the open list holds the root, and one node is counted |
| BranchAndBound.Search.AddBBNode | Program.cs:278-281 | the node is appended to the open list |
| BranchAndBound.Search.CreateBBNode | Program.cs:302-307 | a new childless node is appended to the arena and counted |
| BranchAndBound.Search.SelectBBNode | Program.cs:283-300 | takes out the first open node with the largest bound when that bound is positive, and selects nothing exactly when no open bound is positive |
| BranchAndBound.Search.ClearBranchConstraints | Program.cs:309-319 | every lower bound becomes 0 and every upper bound 1 |
| BranchAndBound.Search.AddBranchConstraints | Program.cs:321-332 | a variable's lower bound becomes 1 where the chain fixes it to 1, its upper bound 0 where fixed to 0, and other bounds are unchanged |
| BranchAndBound.Search.SetBoundsFor | Program.cs:425-426 | the bound arrays hold exactly the subproblem of node n |
| BranchAndBound.Search.UpdateUB | Program.cs:376-382 | the arena becomes its propagation from n, and the returned value is n's new bound |
| BranchAndBound.Search.CheckRootBound | Program.cs:402-410 | the state becomes Checked of the old state: before the root is solved nothing happens, afterwards the tree is propagated from the root; the search stops exactly when the propagated root bound is at least z + Eps |
| BranchAndBound.Search.RecordBound | Program.cs:435-443 | the node records the relaxation value; the first node solved becomes the root and its value the first relaxation value |
| BranchAndBound.Search.BranchOn | Program.cs:456-460 | the arena is split on the variable, both children join the open list, and two nodes are counted |
| BranchAndBound.Search.HandleAnswer | Program.cs:429-460 | the outcome is the classification of the answer; the state is AfterAnswer's; a split uses the branching variable; a new incumbent is the rounded solution, and otherwise the incumbent array is untouched |
| BranchAndBound.Search.SolveNode | Program.cs:425-460 | the solver is asked for exactly the node's subproblem, and the answer is handled as in HandleAnswer |
| BranchAndBound.Search.ProcessNode | Program.cs:424-460 | nothing is selected exactly when no open bound is positive; otherwise the selected node leaves the list, its subproblem is solved, and the state is AfterAnswer's |
| BranchAndBound.Search.Pass | Program.cs:400-460 | the root bound stop happens exactly when the propagated root bound reaches z + Eps; otherwise the time limit stops exactly when no time is left, and an empty selection exactly when no open bound is positive; a stop leaves the checked state and the incumbent array; without a stop the new state is PassStep's: the node at the selected position leaves the list and AfterAnswer applies the solver's answer for its subproblem, branching on the branching variable; the node count tracks the arena and the incumbent stays 0/1 |
| BranchAndBound.Search.TracedPass | Program.cs:400-460 | one pass extends the trace by the new state and its choice, or stops leaving the trace as it was, with the same stop conditions as Pass; the time limit stops exactly when the trace holds as many passes as the budget |
| BranchAndBound.Search.Run | Program.cs:384-466 | returns the trace of states, starting at the initial state and related pass by pass by PassStep, with at most budget passes; the run ends with an empty open list in the last traced state, or from that state's Checked: the root bound stop exactly as RootStop says, the time limit only after exactly budget passes, or no selectable node; objective_value is z on the first two; the node count tracks the arena, z rises by less than Eps per pass, and the incumbent grid stays 0/1 |

## Left out

- The Gurobi model (`build_initial_model`, `solve_LP`, `solve_IP`) is not
  modelled as a solver. The relaxation is a function from the bound grids
  to an answer, required only to return a grid of the model's shape. The
  model and its constraints appear as the predicates that the heuristic's
  solution is proved to satisfy.
- `read_input` is not modelled, and it validates nothing. The model
  requires `ValidInstance` of the instance: one or more positions and
  colours, every colour in `1..nCores`. The source relies on this without
  checking it; an out-of-range colour makes `contCores[item - 1]`
  (`Program.cs:173`) fail.
- The stopwatch and the 1800-second limit are not modelled: the wall clock
  is outside the model. The run takes an iteration budget, and the time
  test becomes "the budget is spent", so the loop provably terminates.
  `spent_time_in_seconds` is not tracked.
- Console output is not modelled (`time_limit_exceeded`, `print_solution`,
  `Main`, the report lines). `Config` only carries constants that the core
  reads as literals.
- Doubles are modelled as exact reals, with `e = 0.000001` as `Eps`.
  Floating-point rounding is not modelled.
- `Statistics` starts with a 0x0 array instead of `null`, because Dafny
  arrays are never null.
- BranchAndBound.Search.SelectBBNode: when no open bound is positive, the
  source returns `null` and then dereferences it in
  `add_branch_contraints`. The model instead reports that nothing was
  selected, and `Run` stops with `NoNodeToSelect`.
- BranchAndBound.Search.Run: a time limit hit before the root is solved
  dereferences a null root in the source. The model stops with `TimeLimit`.
- BranchAndBound.Search.Run: optimality of `z` is not stated, because the
  relaxation is an uninterpreted function. The contract gives the loop's
  own guarantees: the trace of passes, the stop conditions, the node count,
  a rise of less than `Eps` per pass, and an incumbent grid that stays
  0/1. It does not say which pass's rounded solution the incumbent grid
  holds at the end.
- The relaxation is a pure function of the bound grids, so the same bounds
  always give the same answer. Gurobi's dual simplex starts from the
  previous basis, so among several optimal solutions the returned `x` can
  depend on the earlier solves. No proved property relies on this.
- `L.Remove(selected_node)` removes the first entry equal to the node. The
  model removes it by position; the open list never holds a node twice,
  so the two agree.
- BranchAndBound.Search.Run: `n_BB_nodes` accumulates across instances in
  the source. The model states it relative to its value at the start of
  the run.
