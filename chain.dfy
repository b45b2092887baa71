/**
 * The matrix-chain cost recurrence (section 15.2 of Introduction to Algorithms, 3rd ed.)
 * that `matrix_chain_order_with_steps` evaluates bottom-up, and the proof that it is the
 * least cost over every full parenthesization of the chain.
 *
 * Indices are 0-based as in the source: matrix A{x+1} has p[x] rows and p[x+1] columns,
 * and the sub-chain (i, j) is A{i+1}..A{j+1}.
 */
module Chain {

  /** What the page's input widgets guarantee: at least two matrices, every dimension at least 1. */
  predicate ValidDims(p: seq<nat>) {
    |p| >= 3 && forall t :: 0 <= t < |p| ==> p[t] >= 1
  }

  /** Scalar multiplications for the last product when (i, j) is split after A{k+1}. */
  function Weight(p: seq<nat>, i: nat, k: nat, j: nat): nat
    requires i <= k < j < |p| - 1
  {
    p[i] * p[k + 1] * p[j + 1]
  }

  /** Least number of scalar multiplications to compute A{i+1}..A{j+1}. */
  function Cost(p: seq<nat>, i: nat, j: nat): nat
    requires i <= j < |p| - 1
    decreases j - i, 2, 0
  {
    if i == j then 0 else SplitCost(p, i, FirstBest(p, i, j, j - 1), j)
  }

  /** The candidate cost `q` of splitting (i, j) after A{k+1}. */
  function SplitCost(p: seq<nat>, i: nat, k: nat, j: nat): nat
    requires i <= k < j < |p| - 1
    decreases j - i, 0, 0
  {
    Cost(p, i, k) + Cost(p, k + 1, j) + Weight(p, i, k, j)
  }

  /**
   * The split kept after trying k' = i, ..., k in turn, replacing the kept one only on a
   * strictly smaller candidate cost.
   */
  function FirstBest(p: seq<nat>, i: nat, j: nat, k: nat): (b: nat)
    requires i <= k < j < |p| - 1
    ensures i <= b <= k
    decreases j - i, 1, k
  {
    if k == i then i
    else
      var b := FirstBest(p, i, j, k - 1);
      if SplitCost(p, i, k, j) < SplitCost(p, i, b, j) then k else b
  }

  /** The 0-based split of (i, j); the split table stores it plus one. */
  function Split(p: seq<nat>, i: nat, j: nat): nat
    requires i < j < |p| - 1
  {
    FirstBest(p, i, j, j - 1)
  }

  lemma {:induction false} FirstBestIsFirstMinimum(p: seq<nat>, i: nat, j: nat, k: nat)
    requires i <= k < j < |p| - 1
    ensures forall x :: i <= x <= k ==> SplitCost(p, i, FirstBest(p, i, j, k), j) <= SplitCost(p, i, x, j)
    ensures forall x :: i <= x < FirstBest(p, i, j, k) ==> SplitCost(p, i, FirstBest(p, i, j, k), j) < SplitCost(p, i, x, j)
    decreases k
  {
    if k > i {
      FirstBestIsFirstMinimum(p, i, j, k - 1);
    }
  }

  /**
   * The recurrence: Cost(i, j) is the least candidate over k in [i, j-1], Split(i, j) attains
   * it, and every earlier k costs strictly more (ties go to the first minimum).
   */
  lemma Recurrence(p: seq<nat>, i: nat, j: nat)
    requires i < j < |p| - 1
    ensures i <= Split(p, i, j) < j
    ensures Cost(p, i, j) == SplitCost(p, i, Split(p, i, j), j)
    ensures forall k :: i <= k < j ==> Cost(p, i, j) <= SplitCost(p, i, k, j)
    ensures forall k :: i <= k < Split(p, i, j) ==> Cost(p, i, j) < SplitCost(p, i, k, j)
  {
    FirstBestIsFirstMinimum(p, i, j, j - 1);
  }

  /** With positive dimensions every real product costs something. */
  lemma CostPositive(p: seq<nat>, i: nat, j: nat)
    requires ValidDims(p) && i < j < |p| - 1
    ensures Cost(p, i, j) >= 1
  {
    var k := Split(p, i, j);
    assert p[i] >= 1 && p[k + 1] >= 1 && p[j + 1] >= 1;
    assert p[i] * p[k + 1] >= 1;
    assert Weight(p, i, k, j) >= 1;
  }

  /** A full parenthesization: a binary tree whose leaves are matrix indices. */
  datatype Paren = Matrix(index: nat) | Product(left: Paren, right: Paren)

  function Last(t: Paren): nat
  {
    match t
    case Matrix(x) => x
    case Product(_, r) => Last(r)
  }

  /** `t` multiplies exactly A{i+1}..A{j+1}, in order. */
  predicate Parenthesizes(t: Paren, i: nat, j: nat)
  {
    match t
    case Matrix(x) => x == i && i == j
    case Product(l, r) => i <= Last(l) < j && Parenthesizes(l, i, Last(l)) && Parenthesizes(r, Last(l) + 1, j)
  }

  lemma {:induction false} ParenthesizesLast(t: Paren, i: nat, j: nat)
    requires Parenthesizes(t, i, j)
    ensures i <= j && Last(t) == j
  {
    match t
    case Matrix(_) =>
    case Product(l, r) => ParenthesizesLast(r, Last(l) + 1, j);
  }

  /** Scalar multiplications spent when the chain is multiplied in the order `t` gives. */
  function TreeCost(p: seq<nat>, t: Paren, i: nat, j: nat): nat
    requires Parenthesizes(t, i, j) && j < |p| - 1
  {
    match t
    case Matrix(_) => 0
    case Product(l, r) =>
      TreeCost(p, l, i, Last(l)) + TreeCost(p, r, Last(l) + 1, j) + Weight(p, i, Last(l), j)
  }

  lemma {:induction false} CostIsLowerBound(p: seq<nat>, t: Paren, i: nat, j: nat)
    requires Parenthesizes(t, i, j) && j < |p| - 1
    ensures Cost(p, i, j) <= TreeCost(p, t, i, j)
  {
    match t
    case Matrix(_) =>
    case Product(l, r) =>
      CostIsLowerBound(p, l, i, Last(l));
      CostIsLowerBound(p, r, Last(l) + 1, j);
      Recurrence(p, i, j);
      assert Cost(p, i, j) <= SplitCost(p, i, Last(l), j);
  }

  /** The parenthesization that follows the recorded splits. */
  function OptimalTree(p: seq<nat>, i: nat, j: nat): Paren
    requires i <= j < |p| - 1
    decreases j - i
  {
    if i == j then Matrix(i)
    else
      var k := Split(p, i, j);
      Product(OptimalTree(p, i, k), OptimalTree(p, k + 1, j))
  }

  lemma {:induction false} OptimalTreeAttainsCost(p: seq<nat>, i: nat, j: nat)
    requires i <= j < |p| - 1
    ensures Parenthesizes(OptimalTree(p, i, j), i, j)
    ensures TreeCost(p, OptimalTree(p, i, j), i, j) == Cost(p, i, j)
    decreases j - i
  {
    if i < j {
      var k := Split(p, i, j);
      Recurrence(p, i, j);
      OptimalTreeAttainsCost(p, i, k);
      OptimalTreeAttainsCost(p, k + 1, j);
      ParenthesizesLast(OptimalTree(p, i, k), i, k);
    }
  }

  /**
   * Optimality: Cost(i, j) is the minimum of TreeCost over all full parenthesizations of
   * A{i+1}..A{j+1}; it is a lower bound for each of them and OptimalTree attains it.
   */
  lemma CostIsOptimal(p: seq<nat>, i: nat, j: nat)
    requires i <= j < |p| - 1
    ensures Parenthesizes(OptimalTree(p, i, j), i, j) && TreeCost(p, OptimalTree(p, i, j), i, j) == Cost(p, i, j)
    ensures forall t :: Parenthesizes(t, i, j) ==> Cost(p, i, j) <= TreeCost(p, t, i, j)
  {
    OptimalTreeAttainsCost(p, i, j);
    forall t | Parenthesizes(t, i, j)
      ensures Cost(p, i, j) <= TreeCost(p, t, i, j)
    {
      CostIsLowerBound(p, t, i, j);
    }
  }
}
