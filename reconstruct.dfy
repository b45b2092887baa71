/**
 * The three recursive walks over the split table: `get_optimal_parenthesization`,
 * `print_tree` and `draw_tree`. Each visits the same binary tree: (i, j) splits into
 * (i, k) and (k+1, j) where k = s[i][j] - 1.
 */
module Reconstruct {
  import opened Wrappers
  import opened Decimal
  import opened Text

  /** A square split table whose every cell above the diagonal names a split of its range: i+1 <= s[i][j] <= j. */
  predicate WellFormed(s: seq<seq<nat>>) {
    (forall a :: 0 <= a < |s| ==> |s[a]| == |s|) &&
    (forall a, b :: 0 <= a < b < |s| ==> a + 1 <= s[a][b] <= b)
  }

  /** The 0-based split k = s[i][j] - 1 of (i, j). */
  function SplitAt(s: seq<seq<nat>>, i: nat, j: nat): (k: nat)
    requires WellFormed(s) && i < j < |s|
    ensures i <= k < j
  {
    s[i][j] - 1
  }

  /** The name A{x+1} of the matrix at 0-based index x. */
  function Label(x: nat): (r: string)
    ensures |r| >= 2 && r[0] == 'A'
    ensures forall t :: 1 <= t < |r| ==> IsDigit(r[t])
  {
    "A" + NatToString(x + 1)
  }

  lemma LabelIsPlain(x: nat)
    ensures Strip(Label(x)) == Label(x)
    ensures Count(Label(x), '(') == 0 && Count(Label(x), ')') == 0
    ensures Count(Label(x), '×') == 0 && Count(Label(x), '\n') == 0
  {
    var r := Label(x);
    StripUnchanged(r);
    CountAbsent(r, '(');
    CountAbsent(r, ')');
    CountAbsent(r, '×');
    CountAbsent(r, '\n');
  }

  // ---------------------------------------------------------------------------------------
  // get_optimal_parenthesization

  /** The product of two parenthesized parts, written `(left × right)`. */
  function Grouped(left: string, right: string): string {
    "(" + left + " × " + right + ")"
  }

  function OptimalParenthesization(s: seq<seq<nat>>, i: nat, j: nat): string
    requires WellFormed(s) && i <= j < |s|
    decreases j - i
  {
    if i == j then Label(i)
    else
      var k := SplitAt(s, i, j);
      Grouped(OptimalParenthesization(s, i, k), OptimalParenthesization(s, k + 1, j))
  }

  /** The labels A{i+1}, A{i+2}, ..., A{j+1} written one after another. */
  function Labels(i: nat, j: nat): string
    requires i <= j
    decreases j - i
  {
    if i == j then Label(i) else Label(i) + Labels(i + 1, j)
  }

  lemma {:induction false} LabelsConcat(i: nat, k: nat, j: nat)
    requires i <= k < j
    ensures Labels(i, k) + Labels(k + 1, j) == Labels(i, j)
    decreases k - i
  {
    if i < k {
      LabelsConcat(i + 1, k, j);
    }
  }

  lemma GroupedCounts(left: string, right: string, c: char)
    requires c != ' '
    ensures Count(Grouped(left, right), c) ==
      Count(left, c) + Count(right, c) + (if c == '(' || c == ')' || c == '×' then 1 else 0)
  {
    assert Count("(", c) == (if c == '(' then 1 else 0) by { assert "("[1..] == ""; }
    assert Count(")", c) == (if c == ')' then 1 else 0) by { assert ")"[1..] == ""; }
    assert Count(" × ", c) == (if c == '×' then 1 else 0) by {
      assert " × "[1..] == "× " && "× "[1..] == " " && " "[1..] == "";
      assert Count(" ", c) == 0;
      assert Count("× ", c) == (if c == '×' then 1 else 0);
    }
    CountConcat("(", left, c);
    CountConcat("(" + left, " × ", c);
    CountConcat("(" + left + " × ", right, c);
    CountConcat("(" + left + " × " + right, ")", c);
  }

  lemma GroupedStrip(left: string, right: string)
    ensures Strip(Grouped(left, right)) == Strip(left) + Strip(right)
  {
    StripConcat("(", left);
    StripConcat("(" + left, " × ");
    StripConcat("(" + left + " × ", right);
    StripConcat("(" + left + " × " + right, ")");
  }

  lemma GroupedBalanced(left: string, right: string)
    requires Balanced(left) && Balanced(right)
    ensures Balanced(Grouped(left, right))
  {
    ScanShift(left, 0, 1);
    ScanShift(right, 0, 1);
    ScanConcat("(", left, 0);
    ScanConcat("(" + left, " × ", 0);
    ScanConcat("(" + left + " × ", right, 0);
    ScanConcat("(" + left + " × " + right, ")", 0);
  }

  /**
   * The parenthesization of (i, j) names A{i+1}..A{j+1} once each, left to right, once the
   * grouping characters are removed; it holds j - i multiplication signs and j - i balanced
   * pairs of parentheses.
   */
  lemma {:induction false} ParenthesizationShape(s: seq<seq<nat>>, i: nat, j: nat)
    requires WellFormed(s) && i <= j < |s|
    ensures Strip(OptimalParenthesization(s, i, j)) == Labels(i, j)
    ensures Count(OptimalParenthesization(s, i, j), '×') == j - i
    ensures Count(OptimalParenthesization(s, i, j), '(') == j - i
    ensures Count(OptimalParenthesization(s, i, j), ')') == j - i
    ensures Balanced(OptimalParenthesization(s, i, j))
    decreases j - i
  {
    if i == j {
      LabelIsPlain(i);
      ScanFlat(Label(i), 0);
    } else {
      var k := SplitAt(s, i, j);
      var left, right := OptimalParenthesization(s, i, k), OptimalParenthesization(s, k + 1, j);
      ParenthesizationShape(s, i, k);
      ParenthesizationShape(s, k + 1, j);
      GroupedStrip(left, right);
      LabelsConcat(i, k, j);
      GroupedCounts(left, right, '×');
      GroupedCounts(left, right, '(');
      GroupedCounts(left, right, ')');
      GroupedBalanced(left, right);
    }
  }

  // ---------------------------------------------------------------------------------------
  // The tree all three walks visit, in visiting (pre-)order

  /** A visited node: the range (first, last) at nesting depth `depth` below the walk's root. */
  datatype Entry = Entry(depth: nat, first: nat, last: nat)

  /**
   * The t-th node (from 0, in visiting order) of the walk from (i, j) at depth d: the node
   * itself, then the 2(k - i) + 1 nodes of its left subtree, then those of its right subtree.
   */
  function EntryAt(s: seq<seq<nat>>, i: nat, j: nat, d: nat, t: nat): (e: Entry)
    requires WellFormed(s) && i <= j < |s| && t <= 2 * (j - i)
    ensures i <= e.first <= e.last <= j && e.depth >= d
    ensures t == 0 ==> e == Entry(d, i, j)
    ensures t > 0 ==> e.depth > d && e.last - e.first < j - i
    decreases j - i
  {
    if t == 0 then Entry(d, i, j)
    else
      var k := SplitAt(s, i, j);
      var n := 2 * (k - i) + 1;
      if t <= n then EntryAt(s, i, k, d + 1, t - 1) else EntryAt(s, k + 1, j, d + 1, t - 1 - n)
  }

  /** The nodes the walks visit from (i, j) at depth d, in visiting order. */
  function Outline(s: seq<seq<nat>>, i: nat, j: nat, d: nat): (o: seq<Entry>)
    requires WellFormed(s) && i <= j < |s|
    ensures |o| == 2 * (j - i) + 1 && o[0] == Entry(d, i, j)
    ensures forall t :: 0 <= t < |o| ==> o[t] == EntryAt(s, i, j, d, t)
    ensures forall t :: 0 <= t < |o| ==> i <= o[t].first <= o[t].last <= j && o[t].depth >= d
    ensures forall t :: 1 <= t < |o| ==> o[t].depth > d && o[t].last - o[t].first < j - i
  {
    seq(2 * (j - i) + 1, t requires 0 <= t <= 2 * (j - i) => EntryAt(s, i, j, d, t))
  }

  /** The walk visits a node, then its left subtree, then its right subtree. */
  lemma OutlineUnfold(s: seq<seq<nat>>, i: nat, j: nat, d: nat)
    requires WellFormed(s) && i < j < |s|
    ensures Outline(s, i, j, d) ==
      [Entry(d, i, j)] + Outline(s, i, SplitAt(s, i, j), d + 1) + Outline(s, SplitAt(s, i, j) + 1, j, d + 1)
  {
    var k := SplitAt(s, i, j);
    var o, left, right := Outline(s, i, j, d), Outline(s, i, k, d + 1), Outline(s, k + 1, j, d + 1);
    var c := [Entry(d, i, j)] + left + right;
    forall t | 0 <= t < |o|
      ensures o[t] == c[t]
    {
      if 1 <= t <= |left| {
        assert c[t] == left[t - 1];
      } else if t > |left| {
        assert c[t] == right[t - 1 - |left|];
      }
    }
  }

  /** `child` is the left or the right part of `parent`'s split, one level deeper. */
  predicate ChildOf(s: seq<seq<nat>>, parent: Entry, child: Entry)
    requires WellFormed(s) && parent.first <= parent.last < |s|
  {
    parent.first < parent.last &&
    child.depth == parent.depth + 1 &&
    ((child.first == parent.first && child.last == SplitAt(s, parent.first, parent.last)) ||
     (child.first == SplitAt(s, parent.first, parent.last) + 1 && child.last == parent.last))
  }

  /** The position, in visiting order, of the node whose child is visited t-th (t >= 1). */
  function ParentIndex(s: seq<seq<nat>>, i: nat, j: nat, t: nat): (u: nat)
    requires WellFormed(s) && i <= j < |s| && 1 <= t <= 2 * (j - i)
    ensures u < t
    decreases j - i
  {
    var k := SplitAt(s, i, j);
    var n := 2 * (k - i) + 1;
    if t == 1 || t == 1 + n then 0
    else if t <= n then 1 + ParentIndex(s, i, k, t - 1)
    else 1 + n + ParentIndex(s, k + 1, j, t - 1 - n)
  }

  /** The t-th node of the walk from (i, j) at depth d is a child of the node ParentIndex names. */
  predicate VisitedUnderParent(s: seq<seq<nat>>, i: nat, j: nat, d: nat, t: nat) {
    WellFormed(s) && i <= j < |s| && 1 <= t <= 2 * (j - i) &&
    ChildOf(s, EntryAt(s, i, j, d, ParentIndex(s, i, j, t)), EntryAt(s, i, j, d, t))
  }

  /** The roots of the two subtrees are children of the root. */
  lemma ParentIsRoot(s: seq<seq<nat>>, i: nat, k: nat, j: nat, d: nat, t: nat)
    requires WellFormed(s) && i < j < |s| && k == SplitAt(s, i, j)
    requires t == 1 || t == 2 * (k - i) + 2
    ensures VisitedUnderParent(s, i, j, d, t)
  {
  }

  /** A node of the left subtree has its parent there, one position later than in the subtree's own walk. */
  lemma ParentInLeft(s: seq<seq<nat>>, i: nat, k: nat, j: nat, d: nat, t: nat)
    requires WellFormed(s) && i < j < |s| && k == SplitAt(s, i, j)
    requires 1 < t <= 2 * (k - i) + 1 && VisitedUnderParent(s, i, k, d + 1, t - 1)
    ensures VisitedUnderParent(s, i, j, d, t)
  {
    var u := ParentIndex(s, i, k, t - 1);
    assert ParentIndex(s, i, j, t) == 1 + u;
    assert EntryAt(s, i, j, d, 1 + u) == EntryAt(s, i, k, d + 1, u);
    assert EntryAt(s, i, j, d, t) == EntryAt(s, i, k, d + 1, t - 1);
  }

  /** A node of the right subtree has its parent there, shifted past the root and the left subtree. */
  lemma ParentInRight(s: seq<seq<nat>>, i: nat, k: nat, j: nat, d: nat, t: nat)
    requires WellFormed(s) && i < j < |s| && k == SplitAt(s, i, j)
    requires 2 * (k - i) + 2 < t <= 2 * (j - i)
    requires VisitedUnderParent(s, k + 1, j, d + 1, t - 1 - (2 * (k - i) + 1))
    ensures VisitedUnderParent(s, i, j, d, t)
  {
    var n := 2 * (k - i) + 1;
    var u := ParentIndex(s, k + 1, j, t - 1 - n);
    assert ParentIndex(s, i, j, t) == 1 + n + u;
    assert EntryAt(s, i, j, d, 1 + n + u) == EntryAt(s, k + 1, j, d + 1, u);
    assert EntryAt(s, i, j, d, t) == EntryAt(s, k + 1, j, d + 1, t - 1 - n);
  }

  lemma {:induction false} EntryParent(s: seq<seq<nat>>, i: nat, j: nat, d: nat, t: nat)
    requires WellFormed(s) && i <= j < |s| && 1 <= t <= 2 * (j - i)
    ensures ChildOf(s, EntryAt(s, i, j, d, ParentIndex(s, i, j, t)), EntryAt(s, i, j, d, t))
    decreases j - i
  {
    var k := SplitAt(s, i, j);
    var n := 2 * (k - i) + 1;
    if t == 1 || t == 1 + n {
      ParentIsRoot(s, i, k, j, d, t);
    } else if t <= n {
      EntryParent(s, i, k, d + 1, t - 1);
      ParentInLeft(s, i, k, j, d, t);
    } else {
      EntryParent(s, k + 1, j, d + 1, t - 1 - n);
      ParentInRight(s, i, k, j, d, t);
    }
  }

  /** Every visited node but the first is a child of the node ParentIndex names, visited before it. */
  lemma OutlineParent(s: seq<seq<nat>>, i: nat, j: nat, d: nat, t: nat)
    requires WellFormed(s) && i <= j < |s| && 1 <= t < |Outline(s, i, j, d)|
    ensures ChildOf(s, Outline(s, i, j, d)[ParentIndex(s, i, j, t)], Outline(s, i, j, d)[t])
  {
    EntryParent(s, i, j, d, t);
  }

  lemma OutlineParents(s: seq<seq<nat>>, i: nat, j: nat, d: nat)
    requires WellFormed(s) && i <= j < |s|
    ensures forall t :: 1 <= t < |Outline(s, i, j, d)| ==>
      ChildOf(s, Outline(s, i, j, d)[ParentIndex(s, i, j, t)], Outline(s, i, j, d)[t])
  {
    forall t | 1 <= t < |Outline(s, i, j, d)|
      ensures ChildOf(s, Outline(s, i, j, d)[ParentIndex(s, i, j, t)], Outline(s, i, j, d)[t])
    {
      OutlineParent(s, i, j, d, t);
    }
  }

  /** No two entries of o cover the same range. */
  predicate DistinctRanges(o: seq<Entry>) {
    forall t, u :: 0 <= t < u < |o| ==> (o[t].first, o[t].last) != (o[u].first, o[u].last)
  }

  /** Every entry of o covers part of i..j. */
  predicate Within(o: seq<Entry>, i: nat, j: nat) {
    forall t :: 0 <= t < |o| ==> i <= o[t].first <= o[t].last <= j
  }

  /** A range i..j followed by distinct parts of i..k and distinct parts of k+1..j repeats no range. */
  lemma DistinctJoin(root: Entry, left: seq<Entry>, right: seq<Entry>, i: nat, k: nat, j: nat)
    requires i <= k < j && root.first == i && root.last == j
    requires DistinctRanges(left) && Within(left, i, k)
    requires DistinctRanges(right) && Within(right, k + 1, j)
    ensures DistinctRanges([root] + left + right)
  {
    var o := [root] + left + right;
    forall t, u | 0 <= t < u < |o|
      ensures (o[t].first, o[t].last) != (o[u].first, o[u].last)
    {
      if t == 0 {
        if u < 1 + |left| {
          assert o[u] == left[u - 1];
        } else {
          assert o[u] == right[u - 1 - |left|];
        }
      } else if u < 1 + |left| {
        assert o[t] == left[t - 1] && o[u] == left[u - 1];
      } else if t < 1 + |left| {
        assert o[t] == left[t - 1] && o[u] == right[u - 1 - |left|];
      } else {
        assert o[t] == right[t - 1 - |left|] && o[u] == right[u - 1 - |left|];
      }
    }
  }

  /** No range is visited twice. */
  lemma {:induction false} OutlineDistinct(s: seq<seq<nat>>, i: nat, j: nat, d: nat)
    requires WellFormed(s) && i <= j < |s|
    ensures DistinctRanges(Outline(s, i, j, d))
    decreases j - i
  {
    if i < j {
      var k := SplitAt(s, i, j);
      var left, right := Outline(s, i, k, d + 1), Outline(s, k + 1, j, d + 1);
      OutlineDistinct(s, i, k, d + 1);
      OutlineDistinct(s, k + 1, j, d + 1);
      DistinctJoin(Entry(d, i, j), left, right, i, k, j);
      OutlineUnfold(s, i, j, d);
    }
  }

  /** The matrix indices of the leaves, in visiting order. */
  function Leaves(o: seq<Entry>): seq<nat>
  {
    if o == [] then [] else (if o[0].first == o[0].last then [o[0].first] else []) + Leaves(o[1..])
  }

  lemma {:induction false} LeavesConcat(x: seq<Entry>, y: seq<Entry>)
    ensures Leaves(x + y) == Leaves(x) + Leaves(y)
  {
    if x == [] {
      assert x + y == y;
    } else {
      var head := if x[0].first == x[0].last then [x[0].first] else [];
      assert (x + y)[0] == x[0] && (x + y)[1..] == x[1..] + y;
      LeavesConcat(x[1..], y);
      assert Leaves(x + y) == head + (Leaves(x[1..]) + Leaves(y));
      AppendAssociative(head, Leaves(x[1..]), Leaves(y));
    }
  }

  /** An inner node is not a leaf: the leaves of its walk are those of its left walk, then its right walk. */
  lemma LeavesUnfold(s: seq<seq<nat>>, i: nat, j: nat, d: nat)
    requires WellFormed(s) && i < j < |s|
    ensures Leaves(Outline(s, i, j, d)) ==
      Leaves(Outline(s, i, SplitAt(s, i, j), d + 1)) + Leaves(Outline(s, SplitAt(s, i, j) + 1, j, d + 1))
  {
    var root := Entry(d, i, j);
    var k := SplitAt(s, i, j);
    var left, right := Outline(s, i, k, d + 1), Outline(s, k + 1, j, d + 1);
    assert Leaves([root]) == [] by { assert [root][1..] == []; }
    OutlineUnfold(s, i, j, d);
    LeavesConcat([root], left);
    LeavesConcat([root] + left, right);
  }

  /** The matrix indices i, i+1, ..., j. */
  function Range(i: nat, j: nat): (r: seq<nat>)
    requires i <= j
    ensures |r| == j - i + 1 && forall t :: 0 <= t <= j - i ==> r[t] == i + t
  {
    seq(j - i + 1, t => i + t)
  }

  /** i, ..., k followed by k + 1, ..., j is i, ..., j. */
  lemma RangeConcat(i: nat, k: nat, j: nat)
    requires i <= k < j
    ensures Range(i, k) + Range(k + 1, j) == Range(i, j)
  {
  }

  /** The walk from a single matrix visits one leaf. */
  lemma LeafLeaves(s: seq<seq<nat>>, i: nat, d: nat)
    requires WellFormed(s) && i < |s|
    ensures Leaves(Outline(s, i, i, d)) == [i]
  {
    var o := Outline(s, i, i, d);
    assert o == [Entry(d, i, i)];
    assert o[1..] == [];
  }

  /** The leaves of the walk from (i, j) are the matrices i, i+1, ..., j, each exactly once, in order. */
  lemma {:induction false} OutlineLeaves(s: seq<seq<nat>>, i: nat, j: nat, d: nat)
    requires WellFormed(s) && i <= j < |s|
    ensures Leaves(Outline(s, i, j, d)) == Range(i, j)
    decreases j - i
  {
    if i == j {
      LeafLeaves(s, i, d);
    } else {
      var k := SplitAt(s, i, j);
      OutlineLeaves(s, i, k, d + 1);
      OutlineLeaves(s, k + 1, j, d + 1);
      LeavesUnfold(s, i, j, d);
      RangeConcat(i, k, j);
    }
  }

  // ---------------------------------------------------------------------------------------
  // print_tree

  /** The text of the line for node (i, j): the matrix for a leaf, the split for an inner node. */
  function NodeText(s: seq<seq<nat>>, i: nat, j: nat): string
    requires WellFormed(s) && i <= j < |s|
  {
    if i == j then Label(i)
    else "Split " + Label(i) + ".." + Label(j) + " at " + Label(SplitAt(s, i, j))
  }

  function PrintTree(s: seq<seq<nat>>, i: nat, j: nat, indent: string): string
    requires WellFormed(s) && i <= j < |s|
    decreases j - i
  {
    if i == j then indent + NodeText(s, i, j) + "\n"
    else
      var k := SplitAt(s, i, j);
      indent + NodeText(s, i, j) + "\n" + PrintTree(s, i, k, indent + "  ") + PrintTree(s, k + 1, j, indent + "  ")
  }

  /** Two spaces per level. */
  function Spaces(d: nat): (r: string)
    ensures |r| == 2 * d
  {
    if d == 0 then "" else Spaces(d - 1) + "  "
  }

  lemma {:induction false} SpacesAreBlank(d: nat)
    ensures forall t :: 0 <= t < |Spaces(d)| ==> Spaces(d)[t] == ' '
  {
    if d > 0 {
      SpacesAreBlank(d - 1);
    }
  }

  /** Every entry names a range of the table. */
  predicate InRange(s: seq<seq<nat>>, o: seq<Entry>) {
    forall t :: 0 <= t < |o| ==> o[t].first <= o[t].last < |s|
  }

  /** One line per entry: `base`, two spaces per level of depth, the node's text, a newline. */
  function Render(s: seq<seq<nat>>, base: string, o: seq<Entry>): string
    requires WellFormed(s) && InRange(s, o)
  {
    if o == [] then ""
    else base + Spaces(o[0].depth) + NodeText(s, o[0].first, o[0].last) + "\n" + Render(s, base, o[1..])
  }

  lemma {:induction false} RenderConcat(s: seq<seq<nat>>, base: string, x: seq<Entry>, y: seq<Entry>)
    requires WellFormed(s)
    requires InRange(s, x) && InRange(s, y)
    ensures Render(s, base, x + y) == Render(s, base, x) + Render(s, base, y)
  {
    if x == [] {
      assert x + y == y;
    } else {
      assert (x + y)[1..] == x[1..] + y;
      RenderConcat(s, base, x[1..], y);
    }
  }

  /** The line Render writes for one entry. */
  function Line(s: seq<seq<nat>>, base: string, e: Entry): string
    requires WellFormed(s) && e.first <= e.last < |s|
  {
    base + Spaces(e.depth) + NodeText(s, e.first, e.last) + "\n"
  }

  lemma RenderCons(s: seq<seq<nat>>, base: string, e: Entry, rest: seq<Entry>)
    requires WellFormed(s) && e.first <= e.last < |s|
    requires InRange(s, rest)
    ensures Render(s, base, [e] + rest) == Line(s, base, e) + Render(s, base, rest)
  {
    assert ([e] + rest)[1..] == rest;
  }

  lemma RenderTriple(s: seq<seq<nat>>, base: string, e: Entry, x: seq<Entry>, y: seq<Entry>)
    requires WellFormed(s) && e.first <= e.last < |s| && InRange(s, x) && InRange(s, y)
    ensures InRange(s, [e] + x + y)
    ensures Render(s, base, [e] + x + y) == Line(s, base, e) + Render(s, base, x) + Render(s, base, y)
  {
    RenderCons(s, base, e, x);
    assert InRange(s, [e] + x);
    RenderConcat(s, base, [e] + x, y);
  }

  /** A leaf is one line. */
  lemma PrintTreeLeaf(s: seq<seq<nat>>, i: nat, base: string, d: nat)
    requires WellFormed(s) && i < |s|
    ensures PrintsOutline(s, i, i, base, d)
  {
    var root := Entry(d, i, i);
    var o := Outline(s, i, i, d);
    assert o == [root];
    assert Render(s, base, o) == Line(s, base, root) + Render(s, base, []) by {
      assert o[1..] == [];
    }
    assert Line(s, base, root) + "" == Line(s, base, root);
  }

  lemma PrintTreeUnfold(s: seq<seq<nat>>, i: nat, j: nat, base: string, d: nat)
    requires WellFormed(s) && i < j < |s|
    ensures PrintTree(s, i, j, base + Spaces(d)) == Line(s, base, Entry(d, i, j))
      + PrintTree(s, i, SplitAt(s, i, j), base + Spaces(d + 1))
      + PrintTree(s, SplitAt(s, i, j) + 1, j, base + Spaces(d + 1))
  {
    assert base + Spaces(d) + "  " == base + Spaces(d + 1);
  }

  /** print_tree from (i, j), indented `base` plus d levels, writes the lines of the outline at depth d. */
  predicate PrintsOutline(s: seq<seq<nat>>, i: nat, j: nat, base: string, d: nat) {
    WellFormed(s) && i <= j < |s| && PrintTree(s, i, j, base + Spaces(d)) == Render(s, base, Outline(s, i, j, d))
  }

  /** An inner node is its own line, then its subtrees' lines one level deeper. */
  lemma PrintTreeNode(s: seq<seq<nat>>, i: nat, k: nat, j: nat, base: string, d: nat)
    requires WellFormed(s) && i < j < |s| && k == SplitAt(s, i, j)
    requires PrintsOutline(s, i, k, base, d + 1)
    requires PrintsOutline(s, k + 1, j, base, d + 1)
    ensures PrintsOutline(s, i, j, base, d)
  {
    PrintTreeUnfold(s, i, j, base, d);
    OutlineUnfold(s, i, j, d);
    RenderTriple(s, base, Entry(d, i, j), Outline(s, i, k, d + 1), Outline(s, k + 1, j, d + 1));
  }

  /**
   * print_tree writes one line per visited node, in visiting order, each indented by two spaces
   * per level of depth: a child two spaces deeper than its parent (see OutlineParents).
   */
  lemma {:induction false} PrintTreeFollowsOutline(s: seq<seq<nat>>, i: nat, j: nat, base: string, d: nat)
    requires WellFormed(s) && i <= j < |s|
    ensures PrintsOutline(s, i, j, base, d)
    decreases j - i
  {
    if i < j {
      var k := SplitAt(s, i, j);
      PrintTreeFollowsOutline(s, i, k, base, d + 1);
      PrintTreeFollowsOutline(s, k + 1, j, base, d + 1);
      PrintTreeNode(s, i, k, j, base, d);
    } else {
      PrintTreeLeaf(s, i, base, d);
    }
  }

  /** Each rendered entry is exactly one line. */
  lemma {:induction false} RenderLineCount(s: seq<seq<nat>>, base: string, o: seq<Entry>)
    requires WellFormed(s) && InRange(s, o)
    requires Count(base, '\n') == 0
    ensures Count(Render(s, base, o), '\n') == |o|
  {
    if o != [] {
      var e := o[0];
      RenderLineCount(s, base, o[1..]);
      SpacesAreBlank(e.depth);
      CountAbsent(Spaces(e.depth), '\n');
      NodeTextHasNoNewline(s, e.first, e.last);
      CountConcat(base, Spaces(e.depth), '\n');
      CountConcat(base + Spaces(e.depth), NodeText(s, e.first, e.last), '\n');
      CountConcat(base + Spaces(e.depth) + NodeText(s, e.first, e.last), "\n", '\n');
      CountConcat(base + Spaces(e.depth) + NodeText(s, e.first, e.last) + "\n", Render(s, base, o[1..]), '\n');
      assert Count("\n", '\n') == 1 by { assert "\n"[1..] == ""; }
    }
  }

  lemma NodeTextHasNoNewline(s: seq<seq<nat>>, i: nat, j: nat)
    requires WellFormed(s) && i <= j < |s|
    ensures Count(NodeText(s, i, j), '\n') == 0
  {
    var r := NodeText(s, i, j);
    forall t | 0 <= t < |r| ensures r[t] != '\n' {
      if i < j {
        var a, b, c := Label(i), Label(j), Label(SplitAt(s, i, j));
        assert r == "Split " + a + ".." + b + " at " + c;
      }
    }
    CountAbsent(r, '\n');
  }

  /** print_tree from (i, j) writes exactly 2(j - i) + 1 lines. */
  lemma PrintTreeLineCount(s: seq<seq<nat>>, i: nat, j: nat, indent: string)
    requires WellFormed(s) && i <= j < |s|
    requires Count(indent, '\n') == 0
    ensures Count(PrintTree(s, i, j, indent), '\n') == 2 * (j - i) + 1
  {
    assert indent + Spaces(0) == indent;
    PrintTreeFollowsOutline(s, i, j, indent, 0);
    RenderLineCount(s, indent, Outline(s, i, j, 0));
  }
}
