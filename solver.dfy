/**
 * `matrix_chain_order_with_steps`: fills the cost table m and the split table s bottom-up by
 * sub-chain length and records a snapshot of both after every cell.
 *
 * The split table's "-" sentinel is 0 here; a real split is always at least 1.
 */
module Solver {
  import opened Chain

  /** One tried split of the current cell: A{split+1} ends the left part, `cost` is q. */
  datatype Candidate = Candidate(split: nat, cost: nat, improved: bool)

  /**
   * The record appended after cell (first, last): copies of both tables and the candidates
   * tried, in increasing split order (the structured content of the step's narration).
   */
  datatype Step = Step(first: nat, last: nat, m: seq<seq<nat>>, s: seq<seq<nat>>, candidates: seq<Candidate>)

  /** Cell (a, b) is final once cell (i, j) is done: shorter sub-chains first, then by start. */
  predicate Finished(a: int, b: int, i: int, j: int) {
    a < b && (b - a < j - i || (b - a == j - i && a <= i))
  }

  /** Entry (a, b) of the cost table right after cell (i, j): its cost if final, else the initial 0. */
  function CostEntry(p: seq<nat>, a: nat, b: nat, i: int, j: int): nat
    requires a < |p| - 1 && b < |p| - 1
  {
    if Finished(a, b, i, j) then Cost(p, a, b) else 0
  }

  /** Entry (a, b) of the split table right after cell (i, j): its 1-based split if final, else the sentinel 0. */
  function SplitEntry(p: seq<nat>, a: nat, b: nat, i: int, j: int): nat
    requires a < |p| - 1 && b < |p| - 1
  {
    if Finished(a, b, i, j) then Split(p, a, b) + 1 else 0
  }

  /** The cost table as it stands right after cell (i, j). */
  function CostSnapshot(p: seq<nat>, i: int, j: int): seq<seq<nat>>
    requires |p| >= 1
  {
    seq(|p| - 1, a requires 0 <= a < |p| - 1 =>
      seq(|p| - 1, b requires 0 <= b < |p| - 1 => CostEntry(p, a, b, i, j)))
  }

  /** The split table as it stands right after cell (i, j). */
  function SplitSnapshot(p: seq<nat>, i: int, j: int): seq<seq<nat>>
    requires |p| >= 1
  {
    seq(|p| - 1, a requires 0 <= a < |p| - 1 =>
      seq(|p| - 1, b requires 0 <= b < |p| - 1 => SplitEntry(p, a, b, i, j)))
  }

  /** m and s are n-by-n and hold exactly what they hold right after cell (i, j). */
  ghost predicate Filled(p: seq<nat>, m: array2<nat>, s: array2<nat>, i: int, j: int)
    reads m, s
  {
    |p| >= 1 &&
    m.Length0 == m.Length1 == s.Length0 == s.Length1 == |p| - 1 &&
    forall a, b :: 0 <= a < |p| - 1 && 0 <= b < |p| - 1 ==>
      m[a, b] == CostEntry(p, a, b, i, j) && s[a, b] == SplitEntry(p, a, b, i, j)
  }

  /** The t-th split tried for cell (i, j); it improves on the minimum so far, or is the first. */
  function CandidateAt(p: seq<nat>, i: nat, j: nat, t: nat): Candidate
    requires i + t < j < |p| - 1
  {
    var k := i + t;
    Candidate(k, SplitCost(p, i, k, j), t == 0 || SplitCost(p, i, k, j) < SplitCost(p, i, FirstBest(p, i, j, k - 1), j))
  }

  function Candidates(p: seq<nat>, i: nat, j: nat): seq<Candidate>
    requires i < j < |p| - 1
  {
    seq(j - i, t requires 0 <= t < j - i => CandidateAt(p, i, j, t))
  }

  function StepAt(p: seq<nat>, i: nat, j: nat): Step
    requires i < j < |p| - 1
  {
    Step(i, j, CostSnapshot(p, i, j), SplitSnapshot(p, i, j), Candidates(p, i, j))
  }

  /** The cells of sub-chain length l, by increasing start. */
  function CellsOfLength(n: nat, l: nat): (c: seq<(nat, nat)>)
    requires 2 <= l <= n
    ensures |c| == n - l + 1
    ensures forall t :: 0 <= t < |c| ==> c[t] == (t, t + l - 1)
  {
    seq(n - l + 1, t requires 0 <= t < n - l + 1 => (t, t + l - 1))
  }

  /** The cells the solver visits for lengths 2..l, in visiting order. */
  function CellOrder(n: nat, l: nat): (c: seq<(nat, nat)>)
    requires l <= n
    ensures forall t :: 0 <= t < |c| ==> c[t].0 < c[t].1 < n && c[t].1 - c[t].0 < l
  {
    if l < 2 then [] else CellOrder(n, l - 1) + CellsOfLength(n, l)
  }

  /** A copy of a two-dimensional table, as `[row[:] for row in m]` takes it. */
  function Snapshot(a: array2<nat>): (r: seq<seq<nat>>)
    reads a
    ensures |r| == a.Length0
    ensures forall x, y :: 0 <= x < a.Length0 && 0 <= y < a.Length1 ==> |r[x]| == a.Length1 && r[x][y] == a[x, y]
  {
    seq(a.Length0, x requires 0 <= x < a.Length0 reads a =>
      seq(a.Length1, y requires 0 <= y < a.Length1 reads a => a[x, y]))
  }

  /** The steps so far follow `order` cell by cell. */
  predicate StepsFollow(p: seq<nat>, steps: seq<Step>, order: seq<(nat, nat)>)
    requires forall t :: 0 <= t < |order| ==> order[t].0 < order[t].1 < |p| - 1
  {
    |steps| <= |order| &&
    forall t :: 0 <= t < |steps| ==> steps[t] == StepAt(p, order[t].0, order[t].1)
  }

  lemma SnapshotsOfFilled(p: seq<nat>, m: array2<nat>, s: array2<nat>, i: int, j: int)
    requires Filled(p, m, s, i, j)
    ensures Snapshot(m) == CostSnapshot(p, i, j) && Snapshot(s) == SplitSnapshot(p, i, j)
  {
    var n := |p| - 1;
    forall a | 0 <= a < n
      ensures Snapshot(m)[a] == CostSnapshot(p, i, j)[a] && Snapshot(s)[a] == SplitSnapshot(p, i, j)[a]
    {
    }
  }

  /** After the last cell of length l every sub-chain of length up to l is final. */
  lemma FilledAfterLength(p: seq<nat>, m: array2<nat>, s: array2<nat>, l: nat)
    requires 2 <= l <= |p| - 1
    requires Filled(p, m, s, |p| - 1 - l, |p| - 2)
    ensures Filled(p, m, s, -1, l - 1)
  {
    var n, last, length := |p| - 1, |p| - 1 - l, l - 1;
    forall a, b | 0 <= a < n && 0 <= b < n
      ensures CostEntry(p, a, b, last, n - 1) == CostEntry(p, a, b, -1, length)
      ensures SplitEntry(p, a, b, last, n - 1) == SplitEntry(p, a, b, -1, length)
    {
    }
  }

  /**
   * The body of the `for i` loop for cell (i, j): tries every split k = i..j-1 in increasing
   * order, keeps the first minimum, and returns the candidates it tried. Every cell it reads is
   * a shorter sub-chain that is already final.
   */
  method FillCell(p: seq<nat>, m: array2<nat>, s: array2<nat>, i: nat, j: nat) returns (candidates: seq<Candidate>)
    requires ValidDims(p) && i < j < |p| - 1
    requires m != s && Filled(p, m, s, i - 1, j - 1)
    modifies m, s
    ensures Filled(p, m, s, i, j)
    ensures candidates == Candidates(p, i, j)
  {
    var n := |p| - 1;
    candidates := [];
    // Before the first split m[i][j] is +inf, so the first candidate always improves it.
    for k := i to j
      invariant forall a, b :: 0 <= a < n && 0 <= b < n && (a != i || b != j) ==>
        m[a, b] == CostEntry(p, a, b, i, j) && s[a, b] == SplitEntry(p, a, b, i, j)
      invariant k > i ==> m[i, j] == SplitCost(p, i, FirstBest(p, i, j, k - 1), j) && s[i, j] == FirstBest(p, i, j, k - 1) + 1
      invariant |candidates| == k - i
      invariant forall t :: 0 <= t < k - i ==> candidates[t] == CandidateAt(p, i, j, t)
    {
      var q := m[i, k] + m[k + 1, j] + p[i] * p[k + 1] * p[j + 1];
      assert q == SplitCost(p, i, k, j);
      assert k > i ==> FirstBest(p, i, j, k) == if q < SplitCost(p, i, FirstBest(p, i, j, k - 1), j) then k else FirstBest(p, i, j, k - 1);
      var improved := k == i || q < m[i, j];
      if improved {
        m[i, j] := q;
        s[i, j] := k + 1;
      }
      candidates := candidates + [Candidate(k, q, improved)];
    }
  }

  /**
   * On return m and s hold the recurrence's costs and (1-based) first-minimum splits above the
   * diagonal and their initial 0 everywhere else, and `steps` holds one snapshot per cell in
   * the order CellOrder gives.
   */
  method MatrixChainOrderWithSteps(p: seq<nat>) returns (m: array2<nat>, s: array2<nat>, steps: seq<Step>)
    requires ValidDims(p)
    ensures fresh(m) && fresh(s)
    ensures m.Length0 == m.Length1 == s.Length0 == s.Length1 == |p| - 1
    ensures forall a, b :: 0 <= a < |p| - 1 && 0 <= b < |p| - 1 ==>
      m[a, b] == (if a < b then Cost(p, a, b) else 0) && s[a, b] == (if a < b then Split(p, a, b) + 1 else 0)
    ensures |steps| == |CellOrder(|p| - 1, |p| - 1)|
    ensures forall t :: 0 <= t < |steps| ==>
      steps[t] == StepAt(p, CellOrder(|p| - 1, |p| - 1)[t].0, CellOrder(|p| - 1, |p| - 1)[t].1)
  {
    var n := |p| - 1;
    m := new nat[n, n]((a, b) => 0);
    s := new nat[n, n]((a, b) => 0);
    steps := [];
    for l := 2 to n + 1
      invariant Filled(p, m, s, -1, l - 2)
      invariant |steps| == |CellOrder(n, l - 1)|
      invariant StepsFollow(p, steps, CellOrder(n, l - 1))
    {
      steps := FillLength(p, m, s, l, steps);
    }
  }

  /** The inner loop for one sub-chain length l: cells (0, l-1), (1, l), ... in turn, a step recorded after each. */
  method FillLength(p: seq<nat>, m: array2<nat>, s: array2<nat>, l: nat, steps0: seq<Step>) returns (steps: seq<Step>)
    requires ValidDims(p) && 2 <= l <= |p| - 1 && m != s
    requires Filled(p, m, s, -1, l - 2)
    requires |steps0| == |CellOrder(|p| - 1, l - 1)| && StepsFollow(p, steps0, CellOrder(|p| - 1, l - 1))
    modifies m, s
    ensures Filled(p, m, s, -1, l - 1)
    ensures |steps| == |CellOrder(|p| - 1, l)| && StepsFollow(p, steps, CellOrder(|p| - 1, l))
  {
    var n := |p| - 1;
    steps := steps0;
    assert CellOrder(n, l) == CellOrder(n, l - 1) + CellsOfLength(n, l);
    for i := 0 to n - l + 1
      invariant Filled(p, m, s, i - 1, i + l - 2)
      invariant |steps| == |CellOrder(n, l - 1)| + i
      invariant StepsFollow(p, steps, CellOrder(n, l))
    {
      var j := i + l - 1;
      var candidates := FillCell(p, m, s, i, j);
      SnapshotsOfFilled(p, m, s, i, j);
      steps := steps + [Step(i, j, Snapshot(m), Snapshot(s), candidates)];
    }
    FilledAfterLength(p, m, s, l);
  }

  /** Cell x comes strictly before cell y: a shorter sub-chain, or the same length and an earlier start. */
  predicate Precedes(x: (nat, nat), y: (nat, nat)) {
    x.1 - x.0 < y.1 - y.0 || (x.1 - x.0 == y.1 - y.0 && x.0 < y.0)
  }

  lemma {:induction false} CellOrderSize(n: nat, l: nat)
    requires 1 <= l <= n
    ensures 2 * |CellOrder(n, l)| == (l - 1) * (2 * n - l)
    decreases l
  {
    if l >= 2 {
      CellOrderSize(n, l - 1);
      calc {
        2 * |CellOrder(n, l)|;
        2 * |CellOrder(n, l - 1)| + 2 * (n - l + 1);
        (l - 2) * (2 * n - l + 1) + 2 * (n - l + 1);
        { assert (l - 2) * (2 * n - l + 1) == (l - 2) * (2 * n - l) + (l - 2); }
        (l - 2) * (2 * n - l) + (2 * n - l);
        (l - 1) * (2 * n - l);
      }
    }
  }

  /** The solver records exactly n(n-1)/2 steps for a chain of n matrices. */
  lemma StepCount(n: nat)
    requires n >= 1
    ensures |CellOrder(n, n)| == n * (n - 1) / 2
  {
    CellOrderSize(n, n);
  }

  /** Visiting the lengths up to l first repeats the visit of the lengths up to some shorter l0. */
  lemma {:induction false} CellOrderPrefix(n: nat, l0: nat, l: nat)
    requires l0 <= l <= n
    ensures |CellOrder(n, l0)| <= |CellOrder(n, l)|
    ensures CellOrder(n, l0) == CellOrder(n, l)[..|CellOrder(n, l0)|]
    decreases l - l0
  {
    if l0 < l {
      CellOrderPrefix(n, l0, l - 1);
      if l >= 2 {
        assert CellOrder(n, l)[..|CellOrder(n, l - 1)|] == CellOrder(n, l - 1);
      }
    }
  }

  /** Where cell (a, b) is processed: after all shorter cells and the a cells of its length before it. */
  function CellIndex(n: nat, a: nat, b: nat): nat
    requires a < b < n
  {
    |CellOrder(n, b - a)| + a
  }

  /** The visiting order is strictly increasing by length, then by start. */
  lemma {:induction false} CellOrderSorted(n: nat, l: nat)
    requires l <= n
    ensures forall t, u :: 0 <= t < u < |CellOrder(n, l)| ==> Precedes(CellOrder(n, l)[t], CellOrder(n, l)[u])
    decreases l
  {
    if l >= 2 {
      CellOrderSorted(n, l - 1);
    }
  }

  /** Every cell above the diagonal is processed exactly once, at CellIndex. */
  lemma CellVisitedOnce(n: nat, a: nat, b: nat)
    requires a < b < n
    ensures CellIndex(n, a, b) < |CellOrder(n, n)| && CellOrder(n, n)[CellIndex(n, a, b)] == (a, b)
    ensures forall t :: 0 <= t < |CellOrder(n, n)| && CellOrder(n, n)[t] == (a, b) ==> t == CellIndex(n, a, b)
  {
    var l := b - a + 1;
    CellOrderPrefix(n, l, n);
    assert CellOrder(n, l) == CellOrder(n, l - 1) + CellsOfLength(n, l);
    assert CellOrder(n, l)[CellIndex(n, a, b)] == (a, b);
    CellOrderSorted(n, n);
  }

  /** Candidate t is marked as a new minimum exactly when it beats every earlier candidate. */
  lemma CandidateImprovedIff(p: seq<nat>, i: nat, j: nat, t: nat)
    requires i + t < j < |p| - 1
    ensures CandidateAt(p, i, j, t).improved <==>
      forall u :: 0 <= u < t ==> CandidateAt(p, i, j, t).cost < CandidateAt(p, i, j, u).cost
  {
    if t > 0 {
      FirstBestIsFirstMinimum(p, i, j, i + t - 1);
      var b := FirstBest(p, i, j, i + t - 1);
      assert CandidateAt(p, i, j, b - i).cost == SplitCost(p, i, b, j);
    }
  }

  /**
   * The candidate records: the t-th tries split i + t at its cost, and is marked as a new minimum
   * exactly when it is strictly cheaper than every earlier candidate.
   */
  lemma CandidatesRecordImprovements(p: seq<nat>, i: nat, j: nat)
    requires i < j < |p| - 1
    ensures |Candidates(p, i, j)| == j - i
    ensures forall t :: 0 <= t < j - i ==>
      Candidates(p, i, j)[t].split == i + t && Candidates(p, i, j)[t].cost == SplitCost(p, i, i + t, j)
    ensures forall t :: 0 <= t < j - i ==>
      (Candidates(p, i, j)[t].improved <==>
        forall u :: 0 <= u < t ==> Candidates(p, i, j)[t].cost < Candidates(p, i, j)[u].cost)
  {
    var c := Candidates(p, i, j);
    assert forall u :: 0 <= u < j - i ==> c[u] == CandidateAt(p, i, j, u);
    forall t | 0 <= t < j - i
      ensures c[t].improved <==> forall u :: 0 <= u < t ==> c[t].cost < c[u].cost
    {
      CandidateImprovedIff(p, i, j, t);
    }
  }

  /** The split the cell keeps is the last candidate marked as a new minimum. */
  lemma KeptSplitIsLastImprovement(p: seq<nat>, i: nat, j: nat)
    requires i < j < |p| - 1
    ensures i <= Split(p, i, j) < j
    ensures Candidates(p, i, j)[Split(p, i, j) - i].improved
    ensures forall t :: Split(p, i, j) - i < t < j - i ==> !Candidates(p, i, j)[t].improved
  {
    var c := Candidates(p, i, j);
    var b := Split(p, i, j);
    FirstBestIsFirstMinimum(p, i, j, j - 1);
    assert c[b - i] == CandidateAt(p, i, j, b - i);
    CandidateImprovedIff(p, i, j, b - i);
    forall t | b - i < t < j - i
      ensures !c[t].improved
    {
      assert c[t] == CandidateAt(p, i, j, t);
      CandidateImprovedIff(p, i, j, t);
      assert CandidateAt(p, i, j, t).cost >= CandidateAt(p, i, j, b - i).cost;
    }
  }

  /**
   * Snapshots are copies: a snapshot never changes once taken. Entries already final in an
   * earlier snapshot keep their values in every later one, and the cell processed later is still
   * 0 in the earlier snapshot while the later snapshot holds its cost and split.
   */
  lemma SnapshotsAreIndependent(p: seq<nat>, i: nat, j: nat, i2: nat, j2: nat)
    requires ValidDims(p) && i < j < |p| - 1 && i2 < j2 < |p| - 1
    requires Precedes((i, j), (i2, j2))
    ensures forall a, b :: 0 <= a < |p| - 1 && 0 <= b < |p| - 1 && CostSnapshot(p, i, j)[a][b] != 0 ==>
      CostSnapshot(p, i2, j2)[a][b] == CostSnapshot(p, i, j)[a][b]
    ensures forall a, b :: 0 <= a < |p| - 1 && 0 <= b < |p| - 1 && SplitSnapshot(p, i, j)[a][b] != 0 ==>
      SplitSnapshot(p, i2, j2)[a][b] == SplitSnapshot(p, i, j)[a][b]
    ensures CostSnapshot(p, i, j)[i2][j2] == 0 && SplitSnapshot(p, i, j)[i2][j2] == 0
    ensures CostSnapshot(p, i2, j2)[i2][j2] >= 1 && SplitSnapshot(p, i2, j2)[i2][j2] >= 1
  {
    CostPositive(p, i2, j2);
  }

  /** The snapshot of the last cell, (0, n-1), is the pair of tables the solver returns. */
  lemma LastSnapshotIsFinal(p: seq<nat>, last: nat)
    requires ValidDims(p) && last == |p| - 2
    ensures CellOrder(|p| - 1, |p| - 1)[|CellOrder(|p| - 1, |p| - 1)| - 1] == (0, last)
    ensures forall a, b :: 0 <= a < |p| - 1 && 0 <= b < |p| - 1 ==>
      CostSnapshot(p, 0, last)[a][b] == (if a < b then Cost(p, a, b) else 0) &&
      SplitSnapshot(p, 0, last)[a][b] == (if a < b then Split(p, a, b) + 1 else 0)
  {
    var n := |p| - 1;
    assert CellOrder(n, n) == CellOrder(n, n - 1) + CellsOfLength(n, n);
  }
}
