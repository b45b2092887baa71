# Matrix chain multiplication, modelled and verified in Dafny

`mcm.py` is a small Streamlit page that finds the cheapest order in which to multiply a chain
of matrices A1..An, given their dimensions p[0..n]. Matrix A{x+1} has p[x] rows and p[x+1] columns.
Its core is four functions:

- `matrix_chain_order_with_steps(p)` fills the cost table `m` and the split table `s` bottom-up.
  It visits sub-chain lengths l = 2..n, then starts i, then splits k.
  It keeps the first strictly cheaper candidate, and after every cell it records a step: copies of both tables and a narration.
- `get_optimal_parenthesization(s, i, j)` writes the order that `s` encodes, e.g. `((A1 × A2) × A3)`.
- `print_tree(s, i, j, indent)` writes the same tree as an indented outline.
- `draw_tree(s, i, j, dot, parent)` adds one Graphviz node per range and one edge per parent–child pair.

The model has the following modules:

- **Chain** (`chain.dfy`): the cost recurrence as recursive functions (`Cost`, `SplitCost`, `FirstBest`, `Split`).
  It also defines full parenthesizations (`Paren`) with their cost (`TreeCost`).
  It proves that the recurrence's cost is the least cost over all parenthesizations.
- **Solver** (`solver.dfy`): the imperative solver over two `array2<nat>` tables.
  - `MatrixChainOrderWithSteps` is the loop over l.
  - `FillLength` is the loop over i for one length.
  - `FillCell` is the loop over k for one cell.
  - Every loop is proved against `Chain` and against the snapshot functions `CostSnapshot` and `SplitSnapshot`, which give both tables right after any cell.
  - Each step is a `Step` record. Its narration is kept as structured `Candidate(split, cost, improved)` records.
- **Reconstruct** (`reconstruct.dfy`): `get_optimal_parenthesization` and `print_tree` as recursive functions over a well-formed split table.
  It also has an independent reference for the tree that every walk visits: `Outline`, the pre-order list of (depth, first, last) entries.
  The proofs are stated against that reference.
- **Draw** (`draw.dfy`): `draw_tree` as a function returning the node calls and the edge calls it makes.
  It is proved against `Outline` and its parent links.
- **Pipeline** (`pipeline.dfy`): what the page does with the result. It runs the solver, takes m[0][n-1] and prints the order read from `s`.
  It proves that the printed order is an optimal parenthesization whose cost is m[0][n-1].
- **Scenarios** and **ClassicPage** (`scenarios.dfy`): three worked inputs:
  - the six-matrix textbook chain, with cost 15125 and order ((A1 × (A2 × A3)) × ((A4 × A5) × A6));
  - a two-matrix chain;
  - a tie between two splits, where the first split wins.
- **Decimal**, **Text**, **Wrappers**: decimal rendering of naturals as Python prints them, character counting and bracket scanning, and `Option`.

Deviations from the code:

- The `float('inf')` initial value of `m[i][j]` is modelled by letting the first candidate always improve.
  Every real candidate cost is a natural number, so the first one always beats infinity.
- The `"-"` sentinel of `s` is 0; a recorded split is always at least 1.
- The solver does not check its input. Only the page's number widgets stop bad input: at least two matrices and every dimension at least 1 (`mcm.py:99`, `mcm.py:103`, `mcm.py:106`).
  The model therefore states these bounds as the precondition `ValidDims`, not as an error result.
  Likewise, the walks over `s` assume a table that names a split of each range (`WellFormed`), as the solver's output does (`Pipeline.FinalSplitsWellFormed`).

## Model

| member | source | states |
|---|---|---|
| Chain.Recurrence | mcm.py:16-25 | Cost(i, j) is attained by the recorded split, is at most every candidate q over k in [i, j-1], and every earlier k costs strictly more (ties keep the first minimum) |
| Chain.FirstBestIsFirstMinimum | mcm.py:16-25 | after trying k = i..k', the kept split is a minimum among those tried and strictly beats every earlier one, as the strict `<` update gives |
| Chain.CostPositive | mcm.py:17 | with positive dimensions every sub-chain of two or more matrices costs at least 1 |
| Chain.CostIsOptimal | mcm.py:11-25 | Cost(i, j) is the least TreeCost over every full parenthesization of A{i+1}..A{j+1}, and the tree following the recorded splits attains it |
| Solver.MatrixChainOrderWithSteps | mcm.py:5-34 | returns fresh n×n tables with m[a][b] = Cost(a, b) and s[a][b] = Split(a, b) + 1 for a < b and untouched 0 elsewhere, and one step per cell in CellOrder, each the snapshot right after that cell |
| Solver.FillLength | mcm.py:12-32 | the loop over i for length l turns tables final for lengths below l into tables final for lengths up to l, appending one step per cell of length l |
| Solver.FillCell | mcm.py:13-26 | the loop over k sets cell (i, j) to its cost and first-minimum split, changes no other cell, and returns the candidates Candidates(i, j) it tried |
| Solver.StepCount | mcm.py:11-13 | a chain of n matrices yields exactly n(n-1)/2 steps |
| Solver.CellOrderSorted | mcm.py:11-13 | cells are visited in strictly increasing order of length, then of start |
| Solver.CellVisitedOnce | mcm.py:11-13 | each cell (a, b) with a < b is visited exactly once, at position CellIndex(a, b) |
| Solver.CandidateImprovedIff | mcm.py:23-26 | a candidate is marked as a new minimum exactly when it is strictly cheaper than every earlier candidate of its cell |
| Solver.CandidatesRecordImprovements | mcm.py:16-26 | the t-th candidate tries split i + t at cost SplitCost(i, i + t, j), and is marked improved iff it beats every earlier candidate |
| Solver.KeptSplitIsLastImprovement | mcm.py:23-25 | the split stored for a cell is the last candidate marked as a new minimum |
| Solver.SnapshotsAreIndependent | mcm.py:28-31 | a later snapshot keeps every entry already set in an earlier one; the later cell is still 0 in the earlier snapshot and set in its own |
| Solver.LastSnapshotIsFinal | mcm.py:28-34 | the last cell visited is (0, n-1), and its snapshot equals the tables the solver returns |
| Reconstruct.SplitAt | mcm.py:41 | the split read from a well-formed table lies in [i, j-1] |
| Reconstruct.Label | mcm.py:39 | a matrix label is `A` followed by decimal digits only |
| Reconstruct.ParenthesizationShape | mcm.py:37-44 | with the grouping characters removed the text is A{i+1}..A{j+1} once each in order; it holds j - i signs `×`, j - i `(` and j - i `)`, and its brackets balance |
| Reconstruct.OutlineParents | mcm.py:49-52 | every node after the first in visiting order is a child of an earlier node (one level deeper, its left or right part) |
| Reconstruct.OutlineDistinct | mcm.py:49-52 | the walk visits no range twice |
| Reconstruct.OutlineLeaves | mcm.py:47-48 | the leaves of the walk, in order, are exactly the matrices i, i+1, ..., j |
| Reconstruct.PrintTreeFollowsOutline | mcm.py:46-53 | print_tree writes one line per visited node in visiting order, indented two spaces per level below its root |
| Reconstruct.PrintTreeLineCount | mcm.py:46-53 | print_tree from (i, j) writes exactly 2(j - i) + 1 lines |
| Decimal.ParseNatToString | mcm.py:39 | the decimal text of a number reads back as that number |
| Decimal.NatToStringInjective | mcm.py:62 | different numbers print differently |
| Draw.NodeIdInjective | mcm.py:62 | different ranges get different node ids `{i}_{j}` |
| Draw.DrawNodesFollowOutline | mcm.py:55-63 | draw_tree adds one node per visited range, in visiting order, with that range's id and label |
| Draw.DrawNodeIds | mcm.py:62-63 | there are 2(j - i) + 1 nodes, and the t-th carries the id of the t-th visited range |
| Draw.DrawNodeIdsDistinct | mcm.py:62-63 | no two added nodes share an id |
| Draw.DrawEdgesFollowLinks | mcm.py:65-71 | the edges are the one from a given parent into the root, then one per parent–child link in visiting order |
| Draw.DrawTreeEdges | mcm.py:55-71 | from the root there are 2(j - i) edges, the (t-1)-th from the node's parent into the t-th node |
| Draw.DrawTreeShape | mcm.py:55-71 | the graph has 2(j - i) + 1 nodes with distinct ids; no edge enters the root and exactly one enters every other node |
| Pipeline.FinalSplitsWellFormed | mcm.py:23-34 | the returned split table equals the last snapshot, is well formed, and reads back the recurrence's split in every cell |
| Pipeline.ReadsOptimalTree | mcm.py:37-44 | a split table agreeing with the recurrence prints exactly the optimal tree's text |
| Pipeline.ParenthesizationIsOptimalTree | mcm.py:37-44 | reading the solver's final split table prints the optimal tree of (i, j) |
| Pipeline.PrintedOrderIsOptimal | mcm.py:159 | the printed order is a full parenthesization of A1..An costing m[0][n-1], and none costs less |
| Pipeline.LastStepIsFinal | mcm.py:28-34 | the step list has n(n-1)/2 entries, and the last is cell (0, n-1) holding the final split table |
| Pipeline.Solve | mcm.py:110-159 | the page's computation yields the least cost, the text of the optimal order, and n(n-1)/2 steps ending with the final table |
| Scenarios.ClassicChain | mcm.py:5-34 | for p = [30, 35, 15, 5, 10, 20, 25] the least cost is 15125, split as ((A1 (A2 A3)) ((A4 A5) A6)) |
| Scenarios.PairChain | mcm.py:5-34 | for p = [10, 20, 30] the cost is 6000 with the only split after A1 |
| Scenarios.SquareChainTie | mcm.py:23-25 | for p = [10, 10, 10, 10] both splits cost 2000, and the first one tried is kept: A1 × (A2 × A3) |
| ClassicPage.ClassicResult | mcm.py:110-159 | for the textbook chain the page's cost is 15125 and its printed order is ((A1 × (A2 × A3)) × ((A4 × A5) × A6)) |

## Left out

- The Streamlit page (`mcm.py:80-165`) is not modelled: tabs, number inputs, buttons and `session_state` step navigation are UI and state kept across reruns. The page's computation (`mcm.py:110`, `mcm.py:159`) is `Pipeline.Solve`.
- `show_tree` (`mcm.py:73-77`) is not modelled. It creates a Graphviz `Digraph` and renders it through `st.graphviz_chart`, both foreign library calls. What it feeds them is `Draw.DrawTree(s, 0, n-1, None)`.
- The CSS block (`mcm.py:167-229`) is presentation only.
- The text of `step_explanation` (`mcm.py:15-26`) is left out: Indonesian narration with emoji. Each step keeps its cell (`first`, `last`) and its candidates `(split, cost, improved)` in increasing split order, which is what the narration reports.
- Floating point: `float('inf')` only seeds the minimum. The model lets the first candidate always improve, which is what comparing a finite cost with infinity does.
- The order in which `draw_tree` interleaves `dot.node` and `dot.edge` calls is not kept. Nodes and edges are two sequences, each in call order, which is all the rendered graph depends on.
- Input validation is left out because the code has none. Bad input is stopped only by the page's widgets, and the model assumes their bounds (`ValidDims`). The widgets' upper bound of 10 matrices is not assumed; the model holds for chains of any length.
- Pipeline.Solve: states the cost, the printed order and the steps' count and final entry. The full tables and every step are stated by `Solver.MatrixChainOrderWithSteps`, which it calls.
- Python's unbounded integers need no width modelling. Costs and dimensions are `nat`.
