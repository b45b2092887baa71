/**
 * What the page does with the tables once they are built: it keeps m, s and the steps,
 * shows the final m (whose entry m[0][n-1] is the least cost of the whole chain), prints
 * the order `get_optimal_parenthesization` reads from s and draws the same tree. This
 * module connects the walks over s to the recurrence of `Chain`: the printed order is the
 * cheapest full parenthesization of the chain.
 */
module Pipeline {
  import opened Chain
  import opened Solver
  import opened Reconstruct

  /** The split table as `matrix_chain_order_with_steps` leaves it: s[a][b] = Split(a, b) + 1 above the diagonal, 0 elsewhere. */
  function FinalSplits(p: seq<nat>): (s: seq<seq<nat>>)
    requires ValidDims(p)
    ensures |s| == |p| - 1
    ensures forall a, b :: 0 <= a < |p| - 1 && 0 <= b < |p| - 1 ==>
      |s[a]| == |p| - 1 && s[a][b] == (if a < b then Split(p, a, b) + 1 else 0)
  {
    var n := |p| - 1;
    seq(n, a requires 0 <= a < n =>
      seq(n, b requires 0 <= b < n => if a < b then Split(p, a, b) + 1 else 0))
  }

  /**
   * The final split table is the one the last step recorded, it is well formed for the
   * walks, and each walk reads back the split the recurrence chose.
   */
  lemma FinalSplitsWellFormed(p: seq<nat>)
    requires ValidDims(p)
    ensures FinalSplits(p) == SplitSnapshot(p, 0, |p| - 2)
    ensures WellFormed(FinalSplits(p))
    ensures forall a, b :: 0 <= a < b < |p| - 1 ==> SplitAt(FinalSplits(p), a, b) == Split(p, a, b)
  {
    var n := |p| - 1;
    var s := FinalSplits(p);
    LastSnapshotIsFinal(p, n - 1);
    forall a | 0 <= a < n
      ensures s[a] == SplitSnapshot(p, 0, n - 1)[a]
    {
    }
  }

  /** The text `get_optimal_parenthesization` would print for the parenthesization t. */
  function ParenText(t: Paren): string
  {
    match t
    case Matrix(x) => Label(x)
    case Product(l, r) => Grouped(ParenText(l), ParenText(r))
  }

  /** A split table that agrees with the recurrence on every cell prints the tree the recurrence builds. */
  lemma {:induction false} ReadsOptimalTree(p: seq<nat>, s: seq<seq<nat>>, i: nat, j: nat)
    requires WellFormed(s) && |s| == |p| - 1 && i <= j < |s|
    requires forall a, b :: 0 <= a < b < |s| ==> SplitAt(s, a, b) == Split(p, a, b)
    ensures OptimalParenthesization(s, i, j) == ParenText(OptimalTree(p, i, j))
    decreases j - i
  {
    if i < j {
      var k := SplitAt(s, i, j);
      ReadsOptimalTree(p, s, i, k);
      ReadsOptimalTree(p, s, k + 1, j);
    }
  }

  /** Reading the final split table prints exactly the tree the recurrence builds. */
  lemma ParenthesizationIsOptimalTree(p: seq<nat>, i: nat, j: nat)
    requires ValidDims(p) && i <= j < |p| - 1
    ensures WellFormed(FinalSplits(p))
    ensures OptimalParenthesization(FinalSplits(p), i, j) == ParenText(OptimalTree(p, i, j))
  {
    FinalSplitsWellFormed(p);
    ReadsOptimalTree(p, FinalSplits(p), i, j);
  }

  /**
   * The page's result: the order printed from s is a full parenthesization of A1..An
   * (last = n - 1) that costs m[0][n-1] multiplications, and no other costs less.
   */
  lemma PrintedOrderIsOptimal(p: seq<nat>, last: nat)
    requires ValidDims(p) && last == |p| - 2
    ensures WellFormed(FinalSplits(p))
    ensures exists t ::
      Parenthesizes(t, 0, last) && ParenText(t) == OptimalParenthesization(FinalSplits(p), 0, last) &&
      TreeCost(p, t, 0, last) == Cost(p, 0, last)
    ensures forall t :: Parenthesizes(t, 0, last) ==> Cost(p, 0, last) <= TreeCost(p, t, 0, last)
  {
    ParenthesizationIsOptimalTree(p, 0, last);
    CostIsOptimal(p, 0, last);
    var t := OptimalTree(p, 0, last);
    assert Parenthesizes(t, 0, last) && ParenText(t) == OptimalParenthesization(FinalSplits(p), 0, last);
  }

  /** The last step recorded is cell (0, n-1), and its copy of s is the final split table. */
  lemma LastStepIsFinal(p: seq<nat>, steps: seq<Step>)
    requires ValidDims(p)
    requires |steps| == |CellOrder(|p| - 1, |p| - 1)|
    requires forall t :: 0 <= t < |steps| ==>
      steps[t] == StepAt(p, CellOrder(|p| - 1, |p| - 1)[t].0, CellOrder(|p| - 1, |p| - 1)[t].1)
    ensures |steps| == (|p| - 1) * (|p| - 2) / 2 && |steps| >= 1
    ensures steps[|steps| - 1].first == 0 && steps[|steps| - 1].last == |p| - 2
    ensures steps[|steps| - 1].s == FinalSplits(p)
  {
    var n := |p| - 1;
    StepCount(n);
    LastSnapshotIsFinal(p, n - 1);
    FinalSplitsWellFormed(p);
    CellVisitedOnce(n, 0, n - 1);
  }

  /**
   * The computation behind the page: build the tables, take the least cost at m[0][n-1]
   * and print the order from a copy of s.
   */
  method Solve(p: seq<nat>) returns (cost: nat, order: string, steps: seq<Step>)
    requires ValidDims(p)
    ensures cost == Cost(p, 0, |p| - 2)
    ensures order == ParenText(OptimalTree(p, 0, |p| - 2))
    ensures |steps| == (|p| - 1) * (|p| - 2) / 2 && |steps| >= 1
    ensures steps[|steps| - 1].first == 0 && steps[|steps| - 1].last == |p| - 2
    ensures steps[|steps| - 1].s == FinalSplits(p)
  {
    var m, s;
    m, s, steps := MatrixChainOrderWithSteps(p);
    var n := |p| - 1;
    cost := m[0, n - 1];
    var table := Snapshot(s);
    assert table == FinalSplits(p) by {
      forall a | 0 <= a < n
        ensures table[a] == FinalSplits(p)[a]
      {
      }
    }
    FinalSplitsWellFormed(p);
    order := OptimalParenthesization(table, 0, n - 1);
    ParenthesizationIsOptimalTree(p, 0, n - 1);
    LastStepIsFinal(p, steps);
  }
}
