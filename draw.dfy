/**
 * `draw_tree`: the walk over the split table that adds one graph node per visited range and
 * one edge from each node to each of its two parts. The graph object it fills is modelled as
 * the two sequences of calls it receives, in call order.
 */
module Draw {
  import opened Wrappers
  import opened Decimal
  import opened Reconstruct
  import opened Text

  /** The nodes (id, label) and the edges (from, to) added to the graph, each in the order added. */
  datatype Graph = Graph(nodes: seq<(string, string)>, edges: seq<(string, string)>)

  /** The id `{i}_{j}` of the node for range (i, j). */
  function NodeId(i: nat, j: nat): string {
    NatToString(i) + "_" + NatToString(j)
  }

  /**
   * The label: the matrix for a leaf; for an inner node the 1-based range, Graphviz's
   * two-character line break `\n`, and the split.
   */
  function NodeLabel(s: seq<seq<nat>>, i: nat, j: nat): string
    requires WellFormed(s) && i <= j < |s|
  {
    if i == j then Label(i)
    else "(" + NatToString(i + 1) + ".." + NatToString(j + 1) + ")\\nSplit at " + Label(SplitAt(s, i, j))
  }

  /** Whether a parent id counts as given: Python's `if parent:` is false for None and "". */
  predicate HasParent(parent: Option<string>) {
    parent.Some? && parent.value != ""
  }

  /** The nodes draw_tree(s, i, j, dot, parent) adds to `dot`: one per range it visits, in visiting order. */
  function DrawNodes(s: seq<seq<nat>>, i: nat, j: nat): seq<(string, string)>
    requires WellFormed(s) && i <= j < |s|
    decreases j - i
  {
    var here := [(NodeId(i, j), NodeLabel(s, i, j))];
    if i == j then here
    else
      var k := SplitAt(s, i, j);
      here + DrawNodes(s, i, k) + DrawNodes(s, k + 1, j)
  }

  /**
   * The edges draw_tree(s, i, j, dot, parent) adds to `dot`: the one from a given parent into
   * (i, j), then those of the left part's walk and those of the right part's, both with (i, j)
   * as their parent.
   */
  function DrawEdges(s: seq<seq<nat>>, i: nat, j: nat, parent: Option<string>): seq<(string, string)>
    requires WellFormed(s) && i <= j < |s|
    decreases j - i
  {
    var id := NodeId(i, j);
    var incoming := if HasParent(parent) then [(parent.value, id)] else [];
    if i == j then incoming
    else
      var k := SplitAt(s, i, j);
      incoming + DrawEdges(s, i, k, Some(id)) + DrawEdges(s, k + 1, j, Some(id))
  }

  /** Everything draw_tree(s, i, j, dot, parent) adds to `dot`. */
  function DrawTree(s: seq<seq<nat>>, i: nat, j: nat, parent: Option<string>): Graph
    requires WellFormed(s) && i <= j < |s|
  {
    Graph(DrawNodes(s, i, j), DrawEdges(s, i, j, parent))
  }

  // ---------------------------------------------------------------------------------------
  // Ids

  /** The `_` of an id comes right after the digits of its first number, and nowhere before. */
  lemma UnderscorePosition(a: nat, b: nat)
    ensures |NatToString(a)| < |NodeId(a, b)| && NodeId(a, b)[|NatToString(a)|] == '_'
    ensures forall t :: 0 <= t < |NatToString(a)| ==> NodeId(a, b)[t] != '_'
  {
    var x := NatToString(a);
    forall t | 0 <= t < |x|
      ensures NodeId(a, b)[t] != '_'
    {
      assert NodeId(a, b)[t] == x[t];
    }
  }

  /** Different ranges get different ids. */
  lemma NodeIdInjective(a: nat, b: nat, c: nat, e: nat)
    ensures NodeId(a, b) == NodeId(c, e) ==> a == c && b == e
  {
    var x, y, x', y' := NatToString(a), NatToString(b), NatToString(c), NatToString(e);
    if NodeId(a, b) == NodeId(c, e) {
      var id := NodeId(a, b);
      UnderscorePosition(a, b);
      UnderscorePosition(c, e);
      assert |x| == |x'|;
      assert x == id[..|x|] == x';
      assert y == id[|x| + 1..] == y';
      NatToStringInjective(a, c);
      NatToStringInjective(b, e);
    }
  }

  // ---------------------------------------------------------------------------------------
  // Nodes

  /** The node draw_tree adds for a visited range: its id and its label. */
  function NodeFor(s: seq<seq<nat>>, e: Entry): (string, string)
    requires WellFormed(s) && e.first <= e.last < |s|
  {
    (EntryId(e), NodeLabel(s, e.first, e.last))
  }

  /** The nodes for a sequence of visited ranges, one each, in the same order. */
  function OutlineNodes(s: seq<seq<nat>>, o: seq<Entry>): (r: seq<(string, string)>)
    requires WellFormed(s) && InRange(s, o)
    ensures |r| == |o|
  {
    seq(|o|, t requires 0 <= t < |o| => NodeFor(s, o[t]))
  }

  lemma OutlineNodesConcat(s: seq<seq<nat>>, x: seq<Entry>, y: seq<Entry>)
    requires WellFormed(s) && InRange(s, x) && InRange(s, y)
    ensures InRange(s, x + y)
    ensures OutlineNodes(s, x + y) == OutlineNodes(s, x) + OutlineNodes(s, y)
  {
    assert forall t :: 0 <= t < |x| ==> (x + y)[t] == x[t];
    assert forall t :: |x| <= t < |x| + |y| ==> (x + y)[t] == y[t - |x|];
  }

  lemma OutlineInRange(s: seq<seq<nat>>, i: nat, j: nat, d: nat)
    requires WellFormed(s) && i <= j < |s|
    ensures InRange(s, Outline(s, i, j, d))
  {
  }

  /** The nodes draw_tree adds from (i, j) are those of the walk from (i, j) at depth d. */
  predicate DrawsOutline(s: seq<seq<nat>>, i: nat, j: nat, d: nat) {
    WellFormed(s) && i <= j < |s| && InRange(s, Outline(s, i, j, d)) &&
    DrawNodes(s, i, j) == OutlineNodes(s, Outline(s, i, j, d))
  }

  lemma DrawNodesLeaf(s: seq<seq<nat>>, i: nat, d: nat)
    requires WellFormed(s) && i < |s|
    ensures DrawsOutline(s, i, i, d)
  {
    OutlineInRange(s, i, i, d);
    assert Outline(s, i, i, d) == [Entry(d, i, i)];
  }

  lemma DrawNodesNode(s: seq<seq<nat>>, i: nat, k: nat, j: nat, d: nat)
    requires WellFormed(s) && i < j < |s| && k == SplitAt(s, i, j)
    requires DrawsOutline(s, i, k, d + 1) && DrawsOutline(s, k + 1, j, d + 1)
    ensures DrawsOutline(s, i, j, d)
  {
    var here := [Entry(d, i, j)];
    var left, right := Outline(s, i, k, d + 1), Outline(s, k + 1, j, d + 1);
    assert OutlineNodes(s, here) == [(NodeId(i, j), NodeLabel(s, i, j))];
    OutlineUnfold(s, i, j, d);
    OutlineNodesConcat(s, here, left);
    OutlineNodesConcat(s, here + left, right);
  }

  /** draw_tree adds one node per visited range, in visiting order, with that range's id and label. */
  lemma {:induction false} DrawNodesFollowOutline(s: seq<seq<nat>>, i: nat, j: nat, d: nat)
    requires WellFormed(s) && i <= j < |s|
    ensures InRange(s, Outline(s, i, j, d))
    ensures DrawNodes(s, i, j) == OutlineNodes(s, Outline(s, i, j, d))
    decreases j - i
  {
    if i == j {
      DrawNodesLeaf(s, i, d);
    } else {
      var k := SplitAt(s, i, j);
      DrawNodesFollowOutline(s, i, k, d + 1);
      DrawNodesFollowOutline(s, k + 1, j, d + 1);
      DrawNodesNode(s, i, k, j, d);
    }
  }

  /** The id of the t-th node added is that of the t-th visited range. */
  lemma DrawNodeIds(s: seq<seq<nat>>, i: nat, j: nat, d: nat)
    requires WellFormed(s) && i <= j < |s|
    ensures |DrawNodes(s, i, j)| == 2 * (j - i) + 1
    ensures forall t :: 0 <= t <= 2 * (j - i) ==> DrawNodes(s, i, j)[t].0 == EntryId(EntryAt(s, i, j, d, t))
  {
    DrawNodesFollowOutline(s, i, j, d);
    var o := Outline(s, i, j, d);
    forall t | 0 <= t <= 2 * (j - i)
      ensures DrawNodes(s, i, j)[t].0 == EntryId(EntryAt(s, i, j, d, t))
    {
      assert DrawNodes(s, i, j)[t] == NodeFor(s, o[t]);
    }
  }

  /** No two added nodes share an id. */
  lemma DrawNodeIdsDistinct(s: seq<seq<nat>>, i: nat, j: nat)
    requires WellFormed(s) && i <= j < |s|
    ensures forall a, b :: 0 <= a < b < |DrawNodes(s, i, j)| ==> DrawNodes(s, i, j)[a].0 != DrawNodes(s, i, j)[b].0
  {
    var nodes := DrawNodes(s, i, j);
    var o := Outline(s, i, j, 0);
    DrawNodesFollowOutline(s, i, j, 0);
    OutlineDistinct(s, i, j, 0);
    forall a, b | 0 <= a < b < |nodes|
      ensures nodes[a].0 != nodes[b].0
    {
      assert o[a] == EntryAt(s, i, j, 0, a) && o[b] == EntryAt(s, i, j, 0, b);
      NodeIdInjective(o[a].first, o[a].last, o[b].first, o[b].last);
    }
  }

  // ---------------------------------------------------------------------------------------
  // Edges

  /** For every visited node after the first, in visiting order, the link into it from its parent. */
  function Links(s: seq<seq<nat>>, i: nat, j: nat, d: nat): (r: seq<(Entry, Entry)>)
    requires WellFormed(s) && i <= j < |s|
    ensures |r| == 2 * (j - i)
  {
    seq(2 * (j - i), u requires 0 <= u < 2 * (j - i) =>
      (EntryAt(s, i, j, d, ParentIndex(s, i, j, u + 1)), EntryAt(s, i, j, d, u + 1)))
  }

  /** The links below a node: into its left part, the left part's own, into its right part, the right part's own. */
  lemma LinksUnfold(s: seq<seq<nat>>, i: nat, j: nat, d: nat)
    requires WellFormed(s) && i < j < |s|
    ensures var k := SplitAt(s, i, j); var root := Entry(d, i, j);
      Links(s, i, j, d) ==
        ([(root, Entry(d + 1, i, k))] + Links(s, i, k, d + 1)) + ([(root, Entry(d + 1, k + 1, j))] + Links(s, k + 1, j, d + 1))
  {
    var k := SplitAt(s, i, j);
    var n := 2 * (k - i) + 1;
    var root := Entry(d, i, j);
    var links, l, r := Links(s, i, j, d), Links(s, i, k, d + 1), Links(s, k + 1, j, d + 1);
    var c := ([(root, Entry(d + 1, i, k))] + l) + ([(root, Entry(d + 1, k + 1, j))] + r);
    forall u | 0 <= u < |links|
      ensures links[u] == c[u]
    {
      if 0 < u < n {
        assert c[u] == l[u - 1];
        LinkInLeft(s, i, j, d, u);
      } else if u > n {
        assert c[u] == r[u - 1 - n];
        LinkInRight(s, i, j, d, u - n);
      }
    }
  }

  lemma LinkInLeft(s: seq<seq<nat>>, i: nat, j: nat, d: nat, v: nat)
    requires WellFormed(s) && i < j < |s| && 1 <= v <= 2 * (SplitAt(s, i, j) - i)
    ensures Links(s, i, j, d)[v] == Links(s, i, SplitAt(s, i, j), d + 1)[v - 1]
  {
    var k := SplitAt(s, i, j);
    var u := ParentIndex(s, i, k, v);
    assert ParentIndex(s, i, j, v + 1) == 1 + u;
    assert EntryAt(s, i, j, d, 1 + u) == EntryAt(s, i, k, d + 1, u);
    assert EntryAt(s, i, j, d, v + 1) == EntryAt(s, i, k, d + 1, v);
  }

  lemma LinkInRight(s: seq<seq<nat>>, i: nat, j: nat, d: nat, v: nat)
    requires WellFormed(s) && i < j < |s| && 1 <= v <= 2 * (j - SplitAt(s, i, j) - 1)
    ensures Links(s, i, j, d)[2 * (SplitAt(s, i, j) - i) + 1 + v] == Links(s, SplitAt(s, i, j) + 1, j, d + 1)[v - 1]
  {
    var k := SplitAt(s, i, j);
    var n := 2 * (k - i) + 1;
    var u := ParentIndex(s, k + 1, j, v);
    assert ParentIndex(s, i, j, n + 1 + v) == n + 1 + u;
    assert EntryAt(s, i, j, d, n + 1 + u) == EntryAt(s, k + 1, j, d + 1, u);
    assert EntryAt(s, i, j, d, n + 1 + v) == EntryAt(s, k + 1, j, d + 1, v);
  }

  /** The id of a visited node. */
  function EntryId(e: Entry): string {
    NodeId(e.first, e.last)
  }

  /** Links as Graphviz edges between node ids. */
  function LinkEdges(links: seq<(Entry, Entry)>): (r: seq<(string, string)>)
    ensures |r| == |links|
  {
    seq(|links|, t requires 0 <= t < |links| => (EntryId(links[t].0), EntryId(links[t].1)))
  }

  lemma LinkEdgesConcat(x: seq<(Entry, Entry)>, y: seq<(Entry, Entry)>)
    ensures LinkEdges(x + y) == LinkEdges(x) + LinkEdges(y)
  {
    assert forall t :: 0 <= t < |x| ==> LinkEdges(x + y)[t] == LinkEdges(x)[t];
    assert forall t :: |x| <= t < |x| + |y| ==> LinkEdges(x + y)[t] == LinkEdges(y)[t - |x|];
  }

  /** The edges of the links below (i, j): into the left child, the left links, into the right child, the right links. */
  lemma LinkEdgesUnfold(s: seq<seq<nat>>, i: nat, j: nat, d: nat)
    requires WellFormed(s) && i < j < |s|
    ensures var k := SplitAt(s, i, j);
      LinkEdges(Links(s, i, j, d)) ==
        [(NodeId(i, j), NodeId(i, k))] + LinkEdges(Links(s, i, k, d + 1)) +
        ([(NodeId(i, j), NodeId(k + 1, j))] + LinkEdges(Links(s, k + 1, j, d + 1)))
  {
    var k := SplitAt(s, i, j);
    var root := Entry(d, i, j);
    var l, r := Links(s, i, k, d + 1), Links(s, k + 1, j, d + 1);
    var a, b := (root, Entry(d + 1, i, k)), (root, Entry(d + 1, k + 1, j));
    LinksUnfold(s, i, j, d);
    LinkEdgesSplit(a, l, b, r);
  }

  lemma LinkEdgesSplit(a: (Entry, Entry), l: seq<(Entry, Entry)>, b: (Entry, Entry), r: seq<(Entry, Entry)>)
    ensures LinkEdges(([a] + l) + ([b] + r)) ==
      [(EntryId(a.0), EntryId(a.1))] + LinkEdges(l) + ([(EntryId(b.0), EntryId(b.1))] + LinkEdges(r))
  {
    LinkEdgesConcat([a] + l, [b] + r);
    LinkEdgesConcat([a], l);
    LinkEdgesConcat([b], r);
    assert LinkEdges([a]) == [(EntryId(a.0), EntryId(a.1))];
    assert LinkEdges([b]) == [(EntryId(b.0), EntryId(b.1))];
  }

  /** The edges draw_tree adds are the one from a given parent into the root, then the links below it. */
  lemma {:induction false} DrawEdgesFollowLinks(s: seq<seq<nat>>, i: nat, j: nat, d: nat, parent: Option<string>)
    requires WellFormed(s) && i <= j < |s|
    ensures DrawEdges(s, i, j, parent) ==
      (if HasParent(parent) then [(parent.value, NodeId(i, j))] else []) + LinkEdges(Links(s, i, j, d))
    decreases j - i
  {
    var incoming := if HasParent(parent) then [(parent.value, NodeId(i, j))] else [];
    if i == j {
      assert incoming + LinkEdges([]) == incoming;
    } else {
      var k := SplitAt(s, i, j);
      var id := NodeId(i, j);
      var left := DrawEdges(s, i, k, Some(id));
      var right := DrawEdges(s, k + 1, j, Some(id));
      DrawEdgesFollowLinks(s, i, k, d + 1, Some(id));
      DrawEdgesFollowLinks(s, k + 1, j, d + 1, Some(id));
      assert left == [(id, NodeId(i, k))] + LinkEdges(Links(s, i, k, d + 1));
      assert right == [(id, NodeId(k + 1, j))] + LinkEdges(Links(s, k + 1, j, d + 1));
      LinkEdgesUnfold(s, i, j, d);
      assert DrawEdges(s, i, j, parent) == incoming + left + right;
      AppendAssociative(incoming, left, right);
    }
  }

  // ---------------------------------------------------------------------------------------
  // Incoming edges

  /** How many edges go into `id`. */
  function Incoming(edges: seq<(string, string)>, id: string): nat
  {
    if edges == [] then 0 else (if edges[0].1 == id then 1 else 0) + Incoming(edges[1..], id)
  }

  lemma {:induction false} IncomingNone(edges: seq<(string, string)>, id: string)
    requires forall u :: 0 <= u < |edges| ==> edges[u].1 != id
    ensures Incoming(edges, id) == 0
  {
    if edges != [] {
      IncomingNone(edges[1..], id);
    }
  }

  lemma {:induction false} IncomingOne(edges: seq<(string, string)>, t: nat)
    requires t < |edges|
    requires forall u :: 0 <= u < |edges| && u != t ==> edges[u].1 != edges[t].1
    ensures Incoming(edges, edges[t].1) == 1
  {
    if t == 0 {
      IncomingNone(edges[1..], edges[0].1);
    } else {
      IncomingOne(edges[1..], t - 1);
    }
  }

  /** The (t-1)-th link, as an edge, joins the ids of the ParentIndex-th and the t-th visited nodes. */
  lemma LinkEdgeFromParent(s: seq<seq<nat>>, i: nat, j: nat, t: nat)
    requires WellFormed(s) && i <= j < |s| && 1 <= t <= 2 * (j - i)
    ensures InRange(s, Outline(s, i, j, 0))
    ensures var nodes := OutlineNodes(s, Outline(s, i, j, 0));
      LinkEdges(Links(s, i, j, 0))[t - 1] == (nodes[ParentIndex(s, i, j, t)].0, nodes[t].0)
  {
    OutlineInRange(s, i, j, 0);
    var o := Outline(s, i, j, 0);
    var u := ParentIndex(s, i, j, t);
    assert Links(s, i, j, 0)[t - 1] == (o[u], o[t]);
  }

  /**
   * From the root, draw_tree adds 2(j - i) edges, the (t-1)-th of them into the t-th node it
   * adds, from the node ParentIndex names.
   */
  lemma DrawTreeEdges(s: seq<seq<nat>>, i: nat, j: nat)
    requires WellFormed(s) && i <= j < |s|
    ensures var g := DrawTree(s, i, j, None);
      |g.nodes| == 2 * (j - i) + 1 && |g.edges| == 2 * (j - i) &&
      forall t :: 1 <= t < |g.nodes| ==> g.edges[t - 1] == (g.nodes[ParentIndex(s, i, j, t)].0, g.nodes[t].0)
  {
    var nodes, edges := DrawNodes(s, i, j), DrawEdges(s, i, j, None);
    DrawNodesFollowOutline(s, i, j, 0);
    DrawEdgesFollowLinks(s, i, j, 0, None);
    assert edges == LinkEdges(Links(s, i, j, 0));
    forall t | 1 <= t < |nodes|
      ensures edges[t - 1] == (nodes[ParentIndex(s, i, j, t)].0, nodes[t].0)
    {
      LinkEdgeFromParent(s, i, j, t);
    }
  }

  /**
   * The graph draw_tree(s, i, j, dot) draws from the root: 2(j - i) + 1 nodes with distinct ids,
   * no edge into the root and exactly one into every other node.
   */
  lemma DrawTreeShape(s: seq<seq<nat>>, i: nat, j: nat)
    requires WellFormed(s) && i <= j < |s|
    ensures var g := DrawTree(s, i, j, None);
      |g.nodes| == 2 * (j - i) + 1 && |g.edges| == 2 * (j - i) &&
      g.nodes[0].0 == NodeId(i, j) &&
      (forall a, b :: 0 <= a < b < |g.nodes| ==> g.nodes[a].0 != g.nodes[b].0) &&
      Incoming(g.edges, NodeId(i, j)) == 0 &&
      (forall t :: 1 <= t < |g.nodes| ==> Incoming(g.edges, g.nodes[t].0) == 1)
  {
    var nodes, edges := DrawNodes(s, i, j), DrawEdges(s, i, j, None);
    DrawTreeEdges(s, i, j);
    DrawNodeIdsDistinct(s, i, j);
    assert nodes[0].0 == NodeId(i, j);
    forall u | 0 <= u < |edges|
      ensures edges[u].1 == nodes[u + 1].0
    {
      assert edges[u] == (nodes[ParentIndex(s, i, j, u + 1)].0, nodes[u + 1].0);
    }
    IncomingNone(edges, NodeId(i, j));
    forall t | 1 <= t < |nodes|
      ensures Incoming(edges, nodes[t].0) == 1
    {
      IncomingOne(edges, t - 1);
    }
  }
}
