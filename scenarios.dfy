/**
 * Worked inputs: the textbook chain of six matrices, and a chain whose two splits tie.
 * Each `Cell` lemma settles one cell from the cells it depends on, as the solver does.
 */
module Scenarios {
  import opened Chain

  /** A1..A6 with dimensions 30x35, 35x15, 15x5, 5x10, 10x20, 20x25: p = [30, 35, 15, 5, 10, 20, 25]. */
  predicate ClassicDims(p: seq<nat>) {
    |p| == 7 && p[0] == 30 && p[1] == 35 && p[2] == 15 && p[3] == 5 && p[4] == 10 && p[5] == 20 && p[6] == 25
  }

  lemma ClassicValid(p: seq<nat>)
    requires ClassicDims(p)
    ensures ValidDims(p)
  {
    forall t | 0 <= t < |p|
      ensures p[t] >= 1
    {
      assert t == 0 || t == 1 || t == 2 || t == 3 || t == 4 || t == 5 || t == 6;
    }
  }

  /** Three 10x10 matrices: p = [10, 10, 10, 10]; both ways of multiplying them cost 2000. */
  predicate SquareDims(p: seq<nat>) {
    |p| == 4 && p[0] == 10 && p[1] == 10 && p[2] == 10 && p[3] == 10
  }

  lemma ClassicCell01(p: seq<nat>)
    requires ClassicDims(p)
    ensures Cost(p, 0, 1) == 15750 && Split(p, 0, 1) == 0
  {
    assert SplitCost(p, 0, 0, 1) == 15750;
  }

  lemma ClassicCell12(p: seq<nat>)
    requires ClassicDims(p)
    ensures Cost(p, 1, 2) == 2625 && Split(p, 1, 2) == 1
  {
    assert SplitCost(p, 1, 1, 2) == 2625;
  }

  lemma ClassicCell23(p: seq<nat>)
    requires ClassicDims(p)
    ensures Cost(p, 2, 3) == 750 && Split(p, 2, 3) == 2
  {
    assert SplitCost(p, 2, 2, 3) == 750;
  }

  lemma ClassicCell34(p: seq<nat>)
    requires ClassicDims(p)
    ensures Cost(p, 3, 4) == 1000 && Split(p, 3, 4) == 3
  {
    assert SplitCost(p, 3, 3, 4) == 1000;
  }

  lemma ClassicCell45(p: seq<nat>)
    requires ClassicDims(p)
    ensures Cost(p, 4, 5) == 5000 && Split(p, 4, 5) == 4
  {
    assert SplitCost(p, 4, 4, 5) == 5000;
  }

  lemma ClassicBest020(p: seq<nat>)
    requires ClassicDims(p)
    ensures FirstBest(p, 0, 2, 0) == 0 && SplitCost(p, 0, 0, 2) == 7875
  {
    ClassicCell12(p);
    assert SplitCost(p, 0, 0, 2) == 7875;
  }

  lemma ClassicCell02(p: seq<nat>)
    requires ClassicDims(p)
    ensures Cost(p, 0, 2) == 7875 && Split(p, 0, 2) == 0
  {
    ClassicBest020(p);
    ClassicCell01(p);
    assert SplitCost(p, 0, 1, 2) == 18000;
  }

  lemma ClassicBest131(p: seq<nat>)
    requires ClassicDims(p)
    ensures FirstBest(p, 1, 3, 1) == 1 && SplitCost(p, 1, 1, 3) == 6000
  {
    ClassicCell23(p);
    assert SplitCost(p, 1, 1, 3) == 6000;
  }

  lemma ClassicCell13(p: seq<nat>)
    requires ClassicDims(p)
    ensures Cost(p, 1, 3) == 4375 && Split(p, 1, 3) == 2
  {
    ClassicBest131(p);
    ClassicCell12(p);
    assert SplitCost(p, 1, 2, 3) == 4375;
  }

  lemma ClassicBest242(p: seq<nat>)
    requires ClassicDims(p)
    ensures FirstBest(p, 2, 4, 2) == 2 && SplitCost(p, 2, 2, 4) == 2500
  {
    ClassicCell34(p);
    assert SplitCost(p, 2, 2, 4) == 2500;
  }

  lemma ClassicCell24(p: seq<nat>)
    requires ClassicDims(p)
    ensures Cost(p, 2, 4) == 2500 && Split(p, 2, 4) == 2
  {
    ClassicBest242(p);
    ClassicCell23(p);
    assert SplitCost(p, 2, 3, 4) == 3750;
  }

  lemma ClassicBest353(p: seq<nat>)
    requires ClassicDims(p)
    ensures FirstBest(p, 3, 5, 3) == 3 && SplitCost(p, 3, 3, 5) == 6250
  {
    ClassicCell45(p);
    assert SplitCost(p, 3, 3, 5) == 6250;
  }

  lemma ClassicCell35(p: seq<nat>)
    requires ClassicDims(p)
    ensures Cost(p, 3, 5) == 3500 && Split(p, 3, 5) == 4
  {
    ClassicBest353(p);
    ClassicCell34(p);
    assert SplitCost(p, 3, 4, 5) == 3500;
  }

  lemma ClassicBest030(p: seq<nat>)
    requires ClassicDims(p)
    ensures FirstBest(p, 0, 3, 0) == 0 && SplitCost(p, 0, 0, 3) == 14875
  {
    ClassicCell13(p);
    assert SplitCost(p, 0, 0, 3) == 14875;
  }

  lemma ClassicBest031(p: seq<nat>)
    requires ClassicDims(p)
    ensures FirstBest(p, 0, 3, 1) == 0 && SplitCost(p, 0, 0, 3) == 14875
  {
    ClassicBest030(p);
    ClassicCell01(p);
    ClassicCell23(p);
    assert SplitCost(p, 0, 1, 3) == 21000;
  }

  lemma ClassicCell03(p: seq<nat>)
    requires ClassicDims(p)
    ensures Cost(p, 0, 3) == 9375 && Split(p, 0, 3) == 2
  {
    ClassicBest031(p);
    ClassicCell02(p);
    assert SplitCost(p, 0, 2, 3) == 9375;
  }

  lemma ClassicBest141(p: seq<nat>)
    requires ClassicDims(p)
    ensures FirstBest(p, 1, 4, 1) == 1 && SplitCost(p, 1, 1, 4) == 13000
  {
    ClassicCell24(p);
    assert SplitCost(p, 1, 1, 4) == 13000;
  }

  lemma ClassicBest142(p: seq<nat>)
    requires ClassicDims(p)
    ensures FirstBest(p, 1, 4, 2) == 2 && SplitCost(p, 1, 2, 4) == 7125
  {
    ClassicBest141(p);
    ClassicCell12(p);
    ClassicCell34(p);
    assert SplitCost(p, 1, 2, 4) == 7125;
  }

  lemma ClassicCell14(p: seq<nat>)
    requires ClassicDims(p)
    ensures Cost(p, 1, 4) == 7125 && Split(p, 1, 4) == 2
  {
    ClassicBest142(p);
    ClassicCell13(p);
    assert SplitCost(p, 1, 3, 4) == 11375;
  }

  lemma ClassicBest252(p: seq<nat>)
    requires ClassicDims(p)
    ensures FirstBest(p, 2, 5, 2) == 2 && SplitCost(p, 2, 2, 5) == 5375
  {
    ClassicCell35(p);
    assert SplitCost(p, 2, 2, 5) == 5375;
  }

  lemma ClassicBest253(p: seq<nat>)
    requires ClassicDims(p)
    ensures FirstBest(p, 2, 5, 3) == 2 && SplitCost(p, 2, 2, 5) == 5375
  {
    ClassicBest252(p);
    ClassicCell23(p);
    ClassicCell45(p);
    assert SplitCost(p, 2, 3, 5) == 9500;
  }

  lemma ClassicCell25(p: seq<nat>)
    requires ClassicDims(p)
    ensures Cost(p, 2, 5) == 5375 && Split(p, 2, 5) == 2
  {
    ClassicBest253(p);
    ClassicCell24(p);
    assert SplitCost(p, 2, 4, 5) == 10000;
  }

  lemma ClassicBest040(p: seq<nat>)
    requires ClassicDims(p)
    ensures FirstBest(p, 0, 4, 0) == 0 && SplitCost(p, 0, 0, 4) == 28125
  {
    ClassicCell14(p);
    assert SplitCost(p, 0, 0, 4) == 28125;
  }

  lemma ClassicBest041(p: seq<nat>)
    requires ClassicDims(p)
    ensures FirstBest(p, 0, 4, 1) == 1 && SplitCost(p, 0, 1, 4) == 27250
  {
    ClassicBest040(p);
    ClassicCell01(p);
    ClassicCell24(p);
    assert SplitCost(p, 0, 1, 4) == 27250;
  }

  lemma ClassicBest042(p: seq<nat>)
    requires ClassicDims(p)
    ensures FirstBest(p, 0, 4, 2) == 2 && SplitCost(p, 0, 2, 4) == 11875
  {
    ClassicBest041(p);
    ClassicCell02(p);
    ClassicCell34(p);
    assert SplitCost(p, 0, 2, 4) == 11875;
  }

  lemma ClassicCell04(p: seq<nat>)
    requires ClassicDims(p)
    ensures Cost(p, 0, 4) == 11875 && Split(p, 0, 4) == 2
  {
    ClassicBest042(p);
    ClassicCell03(p);
    assert SplitCost(p, 0, 3, 4) == 15375;
  }

  lemma ClassicBest151(p: seq<nat>)
    requires ClassicDims(p)
    ensures FirstBest(p, 1, 5, 1) == 1 && SplitCost(p, 1, 1, 5) == 18500
  {
    ClassicCell25(p);
    assert SplitCost(p, 1, 1, 5) == 18500;
  }

  lemma ClassicBest152(p: seq<nat>)
    requires ClassicDims(p)
    ensures FirstBest(p, 1, 5, 2) == 2 && SplitCost(p, 1, 2, 5) == 10500
  {
    ClassicBest151(p);
    ClassicCell12(p);
    ClassicCell35(p);
    assert SplitCost(p, 1, 2, 5) == 10500;
  }

  lemma ClassicBest153(p: seq<nat>)
    requires ClassicDims(p)
    ensures FirstBest(p, 1, 5, 3) == 2 && SplitCost(p, 1, 2, 5) == 10500
  {
    ClassicBest152(p);
    ClassicCell13(p);
    ClassicCell45(p);
    assert SplitCost(p, 1, 3, 5) == 18125;
  }

  lemma ClassicCell15(p: seq<nat>)
    requires ClassicDims(p)
    ensures Cost(p, 1, 5) == 10500 && Split(p, 1, 5) == 2
  {
    ClassicBest153(p);
    ClassicCell14(p);
    assert SplitCost(p, 1, 4, 5) == 24625;
  }

  lemma ClassicBest050(p: seq<nat>)
    requires ClassicDims(p)
    ensures FirstBest(p, 0, 5, 0) == 0 && SplitCost(p, 0, 0, 5) == 36750
  {
    ClassicCell15(p);
    assert SplitCost(p, 0, 0, 5) == 36750;
  }

  lemma ClassicBest051(p: seq<nat>)
    requires ClassicDims(p)
    ensures FirstBest(p, 0, 5, 1) == 1 && SplitCost(p, 0, 1, 5) == 32375
  {
    ClassicBest050(p);
    ClassicCell01(p);
    ClassicCell25(p);
    assert SplitCost(p, 0, 1, 5) == 32375;
  }

  lemma ClassicBest052(p: seq<nat>)
    requires ClassicDims(p)
    ensures FirstBest(p, 0, 5, 2) == 2 && SplitCost(p, 0, 2, 5) == 15125
  {
    ClassicBest051(p);
    ClassicCell02(p);
    ClassicCell35(p);
    assert SplitCost(p, 0, 2, 5) == 15125;
  }

  lemma ClassicBest053(p: seq<nat>)
    requires ClassicDims(p)
    ensures FirstBest(p, 0, 5, 3) == 2 && SplitCost(p, 0, 2, 5) == 15125
  {
    ClassicBest052(p);
    ClassicCell03(p);
    ClassicCell45(p);
    assert SplitCost(p, 0, 3, 5) == 21875;
  }

  lemma ClassicCell05(p: seq<nat>)
    requires ClassicDims(p)
    ensures Cost(p, 0, 5) == 15125 && Split(p, 0, 5) == 2
  {
    ClassicBest053(p);
    ClassicCell04(p);
    assert SplitCost(p, 0, 4, 5) == 26875;
  }

  lemma SquareCell01(p: seq<nat>)
    requires SquareDims(p)
    ensures Cost(p, 0, 1) == 1000 && Split(p, 0, 1) == 0
  {
    assert SplitCost(p, 0, 0, 1) == 1000;
  }

  lemma SquareCell12(p: seq<nat>)
    requires SquareDims(p)
    ensures Cost(p, 1, 2) == 1000 && Split(p, 1, 2) == 1
  {
    assert SplitCost(p, 1, 1, 2) == 1000;
  }

  lemma SquareBest020(p: seq<nat>)
    requires SquareDims(p)
    ensures FirstBest(p, 0, 2, 0) == 0 && SplitCost(p, 0, 0, 2) == 2000
  {
    SquareCell12(p);
    assert SplitCost(p, 0, 0, 2) == 2000;
  }

  lemma SquareCell02(p: seq<nat>)
    requires SquareDims(p)
    ensures Cost(p, 0, 2) == 2000 && Split(p, 0, 2) == 0
  {
    SquareBest020(p);
    SquareCell01(p);
    assert SplitCost(p, 0, 1, 2) == 2000;
  }

  /** The tree the recorded splits describe: ((A1 × (A2 × A3)) × ((A4 × A5) × A6)). */
  lemma ClassicTree(p: seq<nat>)
    requires ClassicDims(p)
    ensures OptimalTree(p, 0, 5) ==
      Product(Product(Matrix(0), Product(Matrix(1), Matrix(2))), Product(Product(Matrix(3), Matrix(4)), Matrix(5)))
  {
    assert OptimalTree(p, 0, 2) == Product(Matrix(0), Product(Matrix(1), Matrix(2))) by {
      ClassicCell12(p);
      assert OptimalTree(p, 1, 2) == Product(Matrix(1), Matrix(2));
      ClassicCell02(p);
    }
    assert OptimalTree(p, 3, 5) == Product(Product(Matrix(3), Matrix(4)), Matrix(5)) by {
      ClassicCell34(p);
      assert OptimalTree(p, 3, 4) == Product(Matrix(3), Matrix(4));
      ClassicCell35(p);
    }
    ClassicCell05(p);
  }

  /** The textbook answer: 15125 multiplications, in the order ((A1 × (A2 × A3)) × ((A4 × A5) × A6)). */
  lemma ClassicChain(p: seq<nat>)
    requires ClassicDims(p)
    ensures ValidDims(p)
    ensures Cost(p, 0, 5) == 15125
    ensures OptimalTree(p, 0, 5) ==
      Product(Product(Matrix(0), Product(Matrix(1), Matrix(2))), Product(Product(Matrix(3), Matrix(4)), Matrix(5)))
  {
    ClassicValid(p);
    ClassicCell05(p);
    ClassicTree(p);
  }

  /** Two matrices, 10x20 and 20x30: p = [10, 20, 30]. */
  predicate PairDims(p: seq<nat>) {
    |p| == 3 && p[0] == 10 && p[1] == 20 && p[2] == 30
  }

  /** The shortest chain the page accepts: one product of 10 * 20 * 30, split after A1. */
  lemma PairChain(p: seq<nat>)
    requires PairDims(p)
    ensures ValidDims(p)
    ensures Cost(p, 0, 1) == 6000 && Split(p, 0, 1) == 0
    ensures OptimalTree(p, 0, 1) == Product(Matrix(0), Matrix(1))
  {
    assert Weight(p, 0, 0, 1) == 6000;
  }

  /** On a tie the first split tried is kept: A1 × (A2 × A3). */
  lemma SquareChainTie(p: seq<nat>)
    requires SquareDims(p)
    ensures ValidDims(p)
    ensures SplitCost(p, 0, 0, 2) == SplitCost(p, 0, 1, 2) == Cost(p, 0, 2) == 2000
    ensures OptimalTree(p, 0, 2) == Product(Matrix(0), Product(Matrix(1), Matrix(2)))
  {
    SquareCell12(p);
    assert OptimalTree(p, 1, 2) == Product(Matrix(1), Matrix(2));
    SquareCell02(p);
  }
}

/** The classic chain as the page presents it: the cost read from m and the order printed from s. */
module ClassicPage {
  import opened Chain
  import opened Reconstruct
  import opened Pipeline
  import opened Scenarios

  lemma FirstLabels()
    ensures Label(0) == "A1" && Label(1) == "A2" && Label(2) == "A3"
    ensures Label(3) == "A4" && Label(4) == "A5" && Label(5) == "A6"
  {
  }

  /** The order printed for the classic chain, ((A1 × (A2 × A3)) × ((A4 × A5) × A6)). */
  lemma ClassicOrder(p: seq<nat>)
    requires ClassicDims(p)
    ensures ParenText(OptimalTree(p, 0, 5)) ==
      Grouped(Grouped("A1", Grouped("A2", "A3")), Grouped(Grouped("A4", "A5"), "A6"))
  {
    ClassicTree(p);
    FirstLabels();
  }

  /** What the page shows for the classic chain: the least cost and the printed order. */
  method ClassicResult(p: seq<nat>) returns (cost: nat, order: string)
    requires ClassicDims(p)
    ensures cost == 15125
    ensures order == Grouped(Grouped("A1", Grouped("A2", "A3")), Grouped(Grouped("A4", "A5"), "A6"))
  {
    ClassicValid(p);
    ClassicCell05(p);
    ClassicOrder(p);
    var steps;
    cost, order, steps := Solve(p);
  }
}
