/**
 * Lexical decomposition of a polarised category into a proof frame: one
 * node per atomic leaf, one edge per slash from the result's target node
 * to the argument's target node, and child offsets relative to each node's
 * own position (`ProofFrameNode`, `LexicalDecomposition.decompose_category`).
 */
module LexicalDecomposition {
  import opened CategoryTree
  import opened CategoryTokens
  import opened CategoryPrinter

  /** `ProofFrameNode`: an atom occurrence, its polarity and its children as relative offsets. */
  datatype Node = Node(atom: string, positive: bool, children: seq<int>)

  /** `LexicalDecomposition`: the nodes, the `(source, destination)` edges and the target node's index. */
  datatype Decomp = Decomp(nodes: seq<Node>, edges: seq<(int, int)>, target: int)

  /** Every edge index shifted by `d`. */
  function ShiftEdges(es: seq<(int, int)>, d: int): (r: seq<(int, int)>)
    ensures |r| == |es| && forall k :: 0 <= k < |es| ==> r[k] == (es[k].0 + d, es[k].1 + d)
  {
    seq(|es|, k requires 0 <= k < |es| => (es[k].0 + d, es[k].1 + d))
  }

  /** A new child offset prepended to the children of node `t`. */
  function AddChild(nodes: seq<Node>, t: int, offset: int): (r: seq<Node>)
    requires 0 <= t < |nodes|
    ensures |r| == |nodes|
  {
    nodes[t := nodes[t].(children := [offset] + nodes[t].children)]
  }

  /** The result's nodes come first for `/` negative and `\` positive, the argument's otherwise. */
  predicate ResultFirst(sl: Slash, positive: bool) {
    (sl == Fwd) != positive
  }

  /** The edge of a slash: from the result's target to the argument's target, in combined indices. */
  function NewEdge(res: Decomp, arg: Decomp, first: bool): (int, int) {
    if first then (res.target, |res.nodes| + arg.target) else (|arg.nodes| + res.target, arg.target)
  }

  /** The result's decomposition with the new edge's offset prepended to its target's children. */
  function Marked(res: Decomp, edge: (int, int)): Decomp
    requires 0 <= res.target < |res.nodes|
  {
    res.(nodes := AddChild(res.nodes, res.target, edge.1 - edge.0))
  }

  /** Two blocks side by side: the nodes concatenated, the right block's edges shifted past the left's nodes. */
  function Join(left: Decomp, right: Decomp): Decomp {
    Decomp(left.nodes + right.nodes, left.edges + ShiftEdges(right.edges, |left.nodes|), left.target)
  }

  /**
   * Joins the decompositions of a result and its argument, the result's
   * block first when `first`, with the new edge in front of the edges and
   * its source as the target.
   */
  function Combine(res: Decomp, arg: Decomp, first: bool): (d: Decomp)
    requires 0 <= res.target < |res.nodes| && 0 <= arg.target < |arg.nodes|
    ensures |d.nodes| == |res.nodes| + |arg.nodes| && |d.edges| == |res.edges| + |arg.edges| + 1
    ensures d.target == if first then res.target else |arg.nodes| + res.target
    ensures 0 <= d.target < |d.nodes| && d.nodes[d.target].atom == res.nodes[res.target].atom
    ensures d.nodes[d.target].positive == res.nodes[res.target].positive
    ensures |d.nodes[d.target].children| == |res.nodes[res.target].children| + 1
  {
    var edge := NewEdge(res, arg, first);
    var j := if first then Join(Marked(res, edge), arg) else Join(arg, Marked(res, edge));
    Decomp(j.nodes, [edge] + j.edges, edge.0)
  }

  /**
   * `decompose_category(category, positive)`: the result keeps the polarity
   * and the argument takes the opposite one; the result's nodes come first
   * for `/` negative and `\` positive.
   */
  function Decompose(c: Cat, positive: bool): (d: Decomp)
    ensures |d.nodes| == Len(c) && |d.edges| == Len(c) - 1
    ensures 0 <= d.target < |d.nodes|
    ensures d.nodes[d.target].positive == positive && d.nodes[d.target].atom == TargetAtom(c)
    ensures |d.nodes[d.target].children| == Arity(c)
    decreases c, 1
  {
    if c.Atom? then Decomp([Node(c.root, positive, [])], [], 0) else Combined(c, positive)
  }

  /** The decomposition of a complex category: its two sides' decompositions combined. */
  function Combined(c: Cat, positive: bool): (d: Decomp)
    requires c.Complex?
    ensures |d.nodes| == Len(c) && |d.edges| == Len(c) - 1
    ensures 0 <= d.target < |d.nodes|
    ensures d.nodes[d.target].positive == positive && d.nodes[d.target].atom == TargetAtom(c)
    ensures |d.nodes[d.target].children| == Arity(c)
    decreases c, 0
  {
    Combine(Decompose(c.result, positive), Decompose(c.argument, !positive), ResultFirst(c.slash, positive))
  }

  /** A complex category decomposes to the combination of its sides' decompositions. */
  lemma DecomposeStep(c: Cat, positive: bool)
    requires c.Complex?
    ensures Decompose(c, positive)
            == Combine(Decompose(c.result, positive), Decompose(c.argument, !positive), ResultFirst(c.slash, positive))
  {
  }

  /** An atom decomposes to one childless node of the given polarity, with no edges. */
  lemma DecomposeAtom(a: string, positive: bool)
    ensures Decompose(Atom(a), positive) == Decomp([Node(a, positive, [])], [], 0)
  {
  }

  /** Node `s` has a child at offset `d - s`. */
  predicate HasChild(nodes: seq<Node>, s: int, d: int) {
    0 <= s < |nodes| && (d - s) in nodes[s].children
  }

  /** Both ends of every edge are nodes. */
  predicate EdgesInRange(d: Decomp) {
    forall k :: 0 <= k < |d.edges| ==> 0 <= d.edges[k].0 < |d.nodes| && 0 <= d.edges[k].1 < |d.nodes|
  }

  /** Every edge joins two nodes of opposite polarity. */
  predicate EdgesPolar(d: Decomp)
    requires EdgesInRange(d)
  {
    forall k :: 0 <= k < |d.edges| ==> d.nodes[d.edges[k].0].positive != d.nodes[d.edges[k].1].positive
  }

  /** Every edge is recorded as a child offset of its source. */
  predicate EdgesRecorded(d: Decomp) {
    forall k :: 0 <= k < |d.edges| ==> HasChild(d.nodes, d.edges[k].0, d.edges[k].1)
  }

  /** Every child offset of every node is an edge. */
  predicate ChildrenAreEdges(d: Decomp) {
    forall s, j :: 0 <= s < |d.nodes| && 0 <= j < |d.nodes[s].children| ==>
      (s, s + d.nodes[s].children[j]) in d.edges
  }

  /** No node is the destination of two edges, and the target is the destination of none. */
  predicate DestinationsDistinct(d: Decomp) {
    && (forall k :: 0 <= k < |d.edges| ==> d.edges[k].1 != d.target)
    && (forall j, k :: 0 <= j < k < |d.edges| ==> d.edges[j].1 != d.edges[k].1)
  }

  /** A proof frame: the target is a node, and the edges and child offsets describe the same forest. */
  predicate Frame(d: Decomp) {
    && 0 <= d.target < |d.nodes|
    && EdgesInRange(d) && EdgesPolar(d) && EdgesRecorded(d)
    && ChildrenAreEdges(d) && DestinationsDistinct(d)
  }

  /** The number of child offsets over all nodes. */
  function ChildCount(nodes: seq<Node>): nat {
    if |nodes| == 0 then 0 else ChildCount(nodes[..|nodes| - 1]) + |nodes[|nodes| - 1].children|
  }

  lemma {:induction false} ChildCountAppend(a: seq<Node>, b: seq<Node>)
    ensures ChildCount(a + b) == ChildCount(a) + ChildCount(b)
  {
    if |b| > 0 {
      ChildCountAppend(a, b[..|b| - 1]);
      assert (a + b)[..|a + b| - 1] == a + b[..|b| - 1];
    } else {
      assert a + b == a;
    }
  }

  lemma {:induction false} ChildCountAdd(nodes: seq<Node>, t: int, offset: int)
    requires 0 <= t < |nodes|
    ensures ChildCount(AddChild(nodes, t, offset)) == ChildCount(nodes) + 1
  {
    var n := |nodes| - 1;
    var m := AddChild(nodes, t, offset);
    if t < n {
      ChildCountAdd(nodes[..n], t, offset);
      assert m[..n] == AddChild(nodes[..n], t, offset);
    } else {
      assert m[..n] == nodes[..n];
    }
  }

  /** The child count of a join of two decompositions, one child added. */
  lemma JoinCount(a: seq<Node>, b: seq<Node>, t: int, o: int, first: bool)
    requires 0 <= t < |a|
    ensures ChildCount(if first then AddChild(a, t, o) + b else b + AddChild(a, t, o))
            == ChildCount(a) + ChildCount(b) + 1
  {
    ChildCountAdd(a, t, o);
    if first {
      ChildCountAppend(AddChild(a, t, o), b);
    } else {
      ChildCountAppend(b, AddChild(a, t, o));
    }
  }

  /** One edge per child offset: the edges and the child offsets are equally many. */
  lemma {:induction false} EdgeCount(c: Cat, positive: bool)
    ensures |Decompose(c, positive).edges| == ChildCount(Decompose(c, positive).nodes)
  {
    if c.Complex? {
      EdgeCount(c.result, positive);
      EdgeCount(c.argument, !positive);
      CombineCount(Decompose(c.result, positive), Decompose(c.argument, !positive), ResultFirst(c.slash, positive));
    }
  }

  lemma CombineCount(res: Decomp, arg: Decomp, first: bool)
    requires 0 <= res.target < |res.nodes| && 0 <= arg.target < |arg.nodes|
    ensures ChildCount(Combine(res, arg, first).nodes) == ChildCount(res.nodes) + ChildCount(arg.nodes) + 1
  {
    var edge := NewEdge(res, arg, first);
    JoinCount(res.nodes, arg.nodes, res.target, edge.1 - edge.0, first);
  }

  /** Where the result's block starts in a combination. */
  function ROff(res: Decomp, arg: Decomp, first: bool): int {
    if first then 0 else |arg.nodes|
  }

  /** Where the argument's block starts in a combination. */
  function AOff(res: Decomp, arg: Decomp, first: bool): int {
    if first then |res.nodes| else 0
  }

  /** Where the result's edges start after the new edge. */
  function REdges(res: Decomp, arg: Decomp, first: bool): int {
    if first then 1 else 1 + |arg.edges|
  }

  /** Where the argument's edges start after the new edge. */
  function AEdges(res: Decomp, arg: Decomp, first: bool): int {
    if first then 1 + |res.edges| else 1
  }

  lemma MarkedNodes(res: Decomp, edge: (int, int))
    requires 0 <= res.target < |res.nodes|
    ensures var m := Marked(res, edge).nodes;
            |m| == |res.nodes|
            && forall i :: 0 <= i < |res.nodes| ==>
                 m[i].atom == res.nodes[i].atom && m[i].positive == res.nodes[i].positive
                 && m[i].children == (if i == res.target then [edge.1 - edge.0] else []) + res.nodes[i].children
  {
  }

  /** The nodes of a combination, as the two blocks side by side. */
  lemma CombineNodeSeq(res: Decomp, arg: Decomp, first: bool) returns (nodes: seq<Node>)
    requires 0 <= res.target < |res.nodes| && 0 <= arg.target < |arg.nodes|
    ensures nodes == Combine(res, arg, first).nodes
    ensures var m := Marked(res, NewEdge(res, arg, first)).nodes;
            nodes == if first then m + arg.nodes else arg.nodes + m
  {
    nodes := Combine(res, arg, first).nodes;
  }

  lemma BlockAt(x: seq<Node>, y: seq<Node>, i: int)
    requires 0 <= i < |y|
    ensures (x + y)[|x| + i] == y[i] && (y + x)[i] == y[i]
  {
  }

  /** Node `x` of a combination, inside the result's block, is the result's node `x - r` marked. */
  predicate ResNodePlaced(d: Decomp, res: Decomp, r: int, x: int)
    requires 0 <= x < |d.nodes| && 0 <= x - r < |res.nodes| && |d.edges| > 0
  {
    var n := res.nodes[x - r];
    && d.nodes[x].atom == n.atom && d.nodes[x].positive == n.positive
    && d.nodes[x].children == (if x - r == res.target then [d.edges[0].1 - d.edges[0].0] else []) + n.children
  }

  /** The result's block of a combination: its target has one more child, nothing else changes. */
  lemma CombineResNodes(res: Decomp, arg: Decomp, first: bool)
    requires 0 <= res.target < |res.nodes| && 0 <= arg.target < |arg.nodes|
    ensures var d := Combine(res, arg, first);
            var r := ROff(res, arg, first);
            forall x :: r <= x < r + |res.nodes| ==> ResNodePlaced(d, res, r, x)
  {
    var d := Combine(res, arg, first);
    var nodes := CombineNodeSeq(res, arg, first);
    var all := CombineEdgeSeq(res, arg, first);
    assert d.edges[0] == all[0] == NewEdge(res, arg, first);
    forall x | ROff(res, arg, first) <= x < ROff(res, arg, first) + |res.nodes|
      ensures ResNodePlaced(d, res, ROff(res, arg, first), x)
    {
      ResNodeAt(res, arg, first, d, x);
    }
  }

  /** Node `x` of a combination, inside the result's block. */
  lemma ResNodeAt(res: Decomp, arg: Decomp, first: bool, d: Decomp, x: int)
    requires 0 <= res.target < |res.nodes| && 0 <= x - ROff(res, arg, first) < |res.nodes|
    requires var m := Marked(res, NewEdge(res, arg, first)).nodes;
             d.nodes == if first then m + arg.nodes else arg.nodes + m
    requires |d.edges| > 0 && d.edges[0] == NewEdge(res, arg, first)
    ensures 0 <= x < |d.nodes| && ResNodePlaced(d, res, ROff(res, arg, first), x)
  {
    var edge := NewEdge(res, arg, first);
    var m := Marked(res, edge).nodes;
    var i := x - ROff(res, arg, first);
    MarkedNodes(res, edge);
    BlockAt(arg.nodes, m, i);
  }

  /** The argument's block of a combination is the argument's nodes unchanged. */
  lemma CombineArgNodes(res: Decomp, arg: Decomp, first: bool)
    requires 0 <= res.target < |res.nodes| && 0 <= arg.target < |arg.nodes|
    ensures var d := Combine(res, arg, first);
            var a := AOff(res, arg, first);
            forall x :: a <= x < a + |arg.nodes| ==> 0 <= x < |d.nodes| && d.nodes[x] == arg.nodes[x - a]
  {
    var nodes := CombineNodeSeq(res, arg, first);
    var a := AOff(res, arg, first);
    forall x | a <= x < a + |arg.nodes|
      ensures 0 <= x < |nodes| && nodes[x] == arg.nodes[x - a]
    {
      ArgNodeAt(res, arg, first, nodes, x);
    }
  }

  /** Node `x` of a combination, inside the argument's block. */
  lemma ArgNodeAt(res: Decomp, arg: Decomp, first: bool, nodes: seq<Node>, x: int)
    requires 0 <= res.target < |res.nodes| && 0 <= x - AOff(res, arg, first) < |arg.nodes|
    requires var m := Marked(res, NewEdge(res, arg, first)).nodes;
             nodes == if first then m + arg.nodes else arg.nodes + m
    ensures 0 <= x < |nodes| && nodes[x] == arg.nodes[x - AOff(res, arg, first)]
  {
    BlockAt(Marked(res, NewEdge(res, arg, first)).nodes, arg.nodes, x - AOff(res, arg, first));
  }

  /** The edges of a combination: the new edge, then the two blocks' edges, each shifted to its block. */
  lemma CombineEdges(res: Decomp, arg: Decomp, first: bool)
    requires 0 <= res.target < |res.nodes| && 0 <= arg.target < |arg.nodes|
    ensures var d := Combine(res, arg, first);
            var r := ROff(res, arg, first);
            var a := AOff(res, arg, first);
            var re := REdges(res, arg, first);
            var ae := AEdges(res, arg, first);
            && d.edges[0] == (r + res.target, a + arg.target)
            && (forall x :: re <= x < re + |res.edges| ==>
                  0 <= x < |d.edges| && d.edges[x] == (r + res.edges[x - re].0, r + res.edges[x - re].1))
            && (forall x :: ae <= x < ae + |arg.edges| ==>
                  0 <= x < |d.edges| && d.edges[x] == (a + arg.edges[x - ae].0, a + arg.edges[x - ae].1))
  {
    var all := CombineEdgeSeq(res, arg, first);
    var r := ROff(res, arg, first);
    var a := AOff(res, arg, first);
    var re := REdges(res, arg, first);
    var ae := AEdges(res, arg, first);
    forall x | re <= x < re + |res.edges|
      ensures 0 <= x < |all| && all[x] == (r + res.edges[x - re].0, r + res.edges[x - re].1)
    {
      ResEdgeAt(res, arg, first, all, x);
    }
    forall x | ae <= x < ae + |arg.edges|
      ensures 0 <= x < |all| && all[x] == (a + arg.edges[x - ae].0, a + arg.edges[x - ae].1)
    {
      ArgEdgeAt(res, arg, first, all, x);
    }
  }

  /** The edges of a combination, as the new edge and the two blocks' edges. */
  lemma CombineEdgeSeq(res: Decomp, arg: Decomp, first: bool) returns (all: seq<(int, int)>)
    requires 0 <= res.target < |res.nodes| && 0 <= arg.target < |arg.nodes|
    ensures all == Combine(res, arg, first).edges
    ensures all == [NewEdge(res, arg, first)]
                   + (if first then res.edges + ShiftEdges(arg.edges, |res.nodes|) else arg.edges + ShiftEdges(res.edges, |arg.nodes|))
  {
    all := Combine(res, arg, first).edges;
  }

  /** Edge `x` of a combination, inside the result's block of edges. */
  lemma ResEdgeAt(res: Decomp, arg: Decomp, first: bool, all: seq<(int, int)>, x: int)
    requires all == [NewEdge(res, arg, first)]
                    + (if first then res.edges + ShiftEdges(arg.edges, |res.nodes|) else arg.edges + ShiftEdges(res.edges, |arg.nodes|))
    requires 0 <= x - REdges(res, arg, first) < |res.edges|
    ensures var k := x - REdges(res, arg, first);
            0 <= x < |all| && all[x] == (ROff(res, arg, first) + res.edges[k].0, ROff(res, arg, first) + res.edges[k].1)
  {
    var k := x - REdges(res, arg, first);
    if first {
      LeftEdgeAt(all, NewEdge(res, arg, first), res.edges, ShiftEdges(arg.edges, |res.nodes|), k);
    } else {
      RightEdgeAt(all, NewEdge(res, arg, first), arg.edges, res.edges, |arg.nodes|, k);
    }
  }

  /** Edge `x` of a combination, inside the argument's block of edges. */
  lemma ArgEdgeAt(res: Decomp, arg: Decomp, first: bool, all: seq<(int, int)>, x: int)
    requires all == [NewEdge(res, arg, first)]
                    + (if first then res.edges + ShiftEdges(arg.edges, |res.nodes|) else arg.edges + ShiftEdges(res.edges, |arg.nodes|))
    requires 0 <= x - AEdges(res, arg, first) < |arg.edges|
    ensures var k := x - AEdges(res, arg, first);
            0 <= x < |all| && all[x] == (AOff(res, arg, first) + arg.edges[k].0, AOff(res, arg, first) + arg.edges[k].1)
  {
    var k := x - AEdges(res, arg, first);
    if first {
      RightEdgeAt(all, NewEdge(res, arg, first), res.edges, arg.edges, |res.nodes|, k);
    } else {
      LeftEdgeAt(all, NewEdge(res, arg, first), arg.edges, ShiftEdges(res.edges, |arg.nodes|), k);
    }
  }

  lemma LeftEdgeAt(all: seq<(int, int)>, edge: (int, int), le: seq<(int, int)>, rest: seq<(int, int)>, k: int)
    requires all == [edge] + (le + rest) && 0 <= k < |le|
    ensures all[1 + k] == (0 + le[k].0, 0 + le[k].1)
  {
  }

  lemma RightEdgeAt(all: seq<(int, int)>, edge: (int, int), le: seq<(int, int)>, re: seq<(int, int)>, n: int, k: int)
    requires all == [edge] + (le + ShiftEdges(re, n)) && 0 <= k < |re|
    ensures all[1 + |le| + k] == (n + re[k].0, n + re[k].1)
  {
  }

  /**
   * How a combination `d` of `res` and `arg` is laid out: the two node
   * blocks, the new edge first, then each block's edges shifted to it.
   * Each block is described at its own indices `x` in `d`.
   */
  predicate Layout(d: Decomp, res: Decomp, arg: Decomp, first: bool) {
    var r := ROff(res, arg, first);
    var a := AOff(res, arg, first);
    var re := REdges(res, arg, first);
    var ae := AEdges(res, arg, first);
    && 0 <= res.target < |res.nodes| && 0 <= arg.target < |arg.nodes|
    && |d.nodes| == |res.nodes| + |arg.nodes| && |d.edges| == |res.edges| + |arg.edges| + 1
    && d.target == r + res.target
    && d.edges[0] == (r + res.target, a + arg.target)
    && (forall x :: r <= x < r + |res.nodes| ==> 0 <= x < |d.nodes| && ResNodePlaced(d, res, r, x))
    && (forall x :: a <= x < a + |arg.nodes| ==> 0 <= x < |d.nodes| && d.nodes[x] == arg.nodes[x - a])
    && (forall x :: re <= x < re + |res.edges| ==>
          0 <= x < |d.edges| && d.edges[x] == (r + res.edges[x - re].0, r + res.edges[x - re].1))
    && (forall x :: ae <= x < ae + |arg.edges| ==>
          0 <= x < |d.edges| && d.edges[x] == (a + arg.edges[x - ae].0, a + arg.edges[x - ae].1))
  }

  lemma CombineLayout(res: Decomp, arg: Decomp, first: bool)
    requires 0 <= res.target < |res.nodes| && 0 <= arg.target < |arg.nodes|
    ensures Layout(Combine(res, arg, first), res, arg, first)
  {
    CombineResNodes(res, arg, first);
    CombineArgNodes(res, arg, first);
    CombineEdges(res, arg, first);
  }

  /** Each edge of a combination is the new edge, or a shifted edge of the result or of the argument. */
  lemma EdgeOrigin(d: Decomp, res: Decomp, arg: Decomp, first: bool, k: int)
    requires Layout(d, res, arg, first) && 0 <= k < |d.edges|
    ensures var e := d.edges[k];
            var r := ROff(res, arg, first);
            var a := AOff(res, arg, first);
            var re := REdges(res, arg, first);
            var ae := AEdges(res, arg, first);
            || (k == 0 && e == (r + res.target, a + arg.target))
            || (0 <= k - re < |res.edges| && e == (r + res.edges[k - re].0, r + res.edges[k - re].1))
            || (0 <= k - ae < |arg.edges| && e == (a + arg.edges[k - ae].0, a + arg.edges[k - ae].1))
  {
  }

  lemma LayoutInRange(d: Decomp, res: Decomp, arg: Decomp, first: bool)
    requires Layout(d, res, arg, first) && Frame(res) && Frame(arg)
    ensures EdgesInRange(d)
  {
    forall k | 0 <= k < |d.edges|
      ensures 0 <= d.edges[k].0 < |d.nodes| && 0 <= d.edges[k].1 < |d.nodes|
    {
      EdgeOrigin(d, res, arg, first, k);
    }
  }

  lemma LayoutPolar(d: Decomp, res: Decomp, arg: Decomp, first: bool)
    requires Layout(d, res, arg, first) && Frame(res) && Frame(arg) && EdgesInRange(d)
    requires res.nodes[res.target].positive != arg.nodes[arg.target].positive
    ensures EdgesPolar(d)
  {
    forall k | 0 <= k < |d.edges|
      ensures d.nodes[d.edges[k].0].positive != d.nodes[d.edges[k].1].positive
    {
      EdgePolar(d, res, arg, first, k);
    }
  }

  lemma EdgePolar(d: Decomp, res: Decomp, arg: Decomp, first: bool, k: int)
    requires Layout(d, res, arg, first) && EdgesInRange(d)
    requires EdgesInRange(res) && EdgesPolar(res) && EdgesInRange(arg) && EdgesPolar(arg)
    requires res.nodes[res.target].positive != arg.nodes[arg.target].positive
    requires 0 <= k < |d.edges|
    ensures d.nodes[d.edges[k].0].positive != d.nodes[d.edges[k].1].positive
  {
    EdgeOrigin(d, res, arg, first, k);
    var re := REdges(res, arg, first);
    if k == 0 {
      var r := ROff(res, arg, first);
      assert ResNodePlaced(d, res, r, r + res.target);
    } else if 0 <= k - re < |res.edges| {
      ResEdgePolar(d, res, arg, first, k - re);
    } else {
      ArgEdgePolar(d, res, arg, first, k - AEdges(res, arg, first));
    }
  }

  /** An edge copied from the result's block keeps its polarities. */
  lemma ResEdgePolar(d: Decomp, res: Decomp, arg: Decomp, first: bool, j: int)
    requires Layout(d, res, arg, first) && EdgesInRange(res) && EdgesPolar(res) && 0 <= j < |res.edges|
    ensures var x := REdges(res, arg, first) + j;
            0 <= x < |d.edges| && 0 <= d.edges[x].0 < |d.nodes| && 0 <= d.edges[x].1 < |d.nodes|
            && d.nodes[d.edges[x].0].positive != d.nodes[d.edges[x].1].positive
  {
    var r := ROff(res, arg, first);
    var e := res.edges[j];
    assert ResNodePlaced(d, res, r, r + e.0) && ResNodePlaced(d, res, r, r + e.1);
  }

  /** An edge copied from the argument's block keeps its polarities. */
  lemma ArgEdgePolar(d: Decomp, res: Decomp, arg: Decomp, first: bool, j: int)
    requires Layout(d, res, arg, first) && EdgesInRange(arg) && EdgesPolar(arg) && 0 <= j < |arg.edges|
    ensures var x := AEdges(res, arg, first) + j;
            0 <= x < |d.edges| && 0 <= d.edges[x].0 < |d.nodes| && 0 <= d.edges[x].1 < |d.nodes|
            && d.nodes[d.edges[x].0].positive != d.nodes[d.edges[x].1].positive
  {
    var a := AOff(res, arg, first);
    var e := arg.edges[j];
    assert d.nodes[a + e.0] == arg.nodes[e.0] && d.nodes[a + e.1] == arg.nodes[e.1];
  }

  lemma LayoutRecorded(d: Decomp, res: Decomp, arg: Decomp, first: bool)
    requires Layout(d, res, arg, first) && Frame(res) && Frame(arg)
    ensures EdgesRecorded(d)
  {
    forall k | 0 <= k < |d.edges|
      ensures HasChild(d.nodes, d.edges[k].0, d.edges[k].1)
    {
      EdgeRecorded(d, res, arg, first, k);
    }
  }

  lemma EdgeRecorded(d: Decomp, res: Decomp, arg: Decomp, first: bool, k: int)
    requires Layout(d, res, arg, first) && EdgesRecorded(res) && EdgesRecorded(arg) && 0 <= k < |d.edges|
    ensures HasChild(d.nodes, d.edges[k].0, d.edges[k].1)
  {
    var r := ROff(res, arg, first);
    var a := AOff(res, arg, first);
    EdgeOrigin(d, res, arg, first, k);
    if k == 0 {
      assert ResNodePlaced(d, res, r, r + res.target);
    } else if 0 <= k - REdges(res, arg, first) < |res.edges| {
      var e := res.edges[k - REdges(res, arg, first)];
      assert HasChild(res.nodes, e.0, e.1);
      assert ResNodePlaced(d, res, r, r + e.0);
    } else {
      var e := arg.edges[k - AEdges(res, arg, first)];
      assert HasChild(arg.nodes, e.0, e.1);
      assert d.nodes[a + e.0] == arg.nodes[e.0];
    }
  }

  /** An edge of a block, shifted to where the block sits, is an edge of the whole. */
  lemma MemberShifted(es: seq<(int, int)>, all: seq<(int, int)>, base: int, off: int, e: (int, int))
    requires e in es
    requires 0 <= base && base + |es| <= |all|
    requires forall x :: base <= x < base + |es| ==> 0 <= x < |all| && all[x] == (off + es[x - base].0, off + es[x - base].1)
    ensures (off + e.0, off + e.1) in all
  {
    var k :| 0 <= k < |es| && es[k] == e;
    assert all[base + k] == (off + e.0, off + e.1);
  }

  lemma ResChildIsEdge(d: Decomp, res: Decomp, arg: Decomp, first: bool, s: int, j: int)
    requires Layout(d, res, arg, first) && ChildrenAreEdges(res)
    requires 0 <= s - ROff(res, arg, first) < |res.nodes| && 0 <= s < |d.nodes| && 0 <= j < |d.nodes[s].children|
    ensures (s, s + d.nodes[s].children[j]) in d.edges
  {
    var r := ROff(res, arg, first);
    var i := s - r;
    var c := d.nodes[s].children[j];
    var pre := if i == res.target then [d.edges[0].1 - d.edges[0].0] else [];
    assert ResNodePlaced(d, res, r, s);
    assert d.nodes[s].children == pre + res.nodes[i].children;
    if j < |pre| {
      assert (s, s + c) == d.edges[0];
    } else {
      assert res.nodes[i].children[j - |pre|] == c;
      MemberShifted(res.edges, d.edges, REdges(res, arg, first), r, (i, i + c));
    }
  }

  lemma ArgChildIsEdge(d: Decomp, res: Decomp, arg: Decomp, first: bool, s: int, j: int)
    requires Layout(d, res, arg, first) && ChildrenAreEdges(arg)
    requires 0 <= s - AOff(res, arg, first) < |arg.nodes| && 0 <= s < |d.nodes| && 0 <= j < |d.nodes[s].children|
    ensures (s, s + d.nodes[s].children[j]) in d.edges
  {
    var a := AOff(res, arg, first);
    var i := s - a;
    var c := d.nodes[s].children[j];
    assert d.nodes[s] == arg.nodes[i];
    MemberShifted(arg.edges, d.edges, AEdges(res, arg, first), a, (i, i + c));
  }

  lemma LayoutChildren(d: Decomp, res: Decomp, arg: Decomp, first: bool)
    requires Layout(d, res, arg, first) && Frame(res) && Frame(arg)
    ensures ChildrenAreEdges(d)
  {
    var r := ROff(res, arg, first);
    forall s, j | 0 <= s < |d.nodes| && 0 <= j < |d.nodes[s].children|
      ensures (s, s + d.nodes[s].children[j]) in d.edges
    {
      if 0 <= s - r < |res.nodes| {
        ResChildIsEdge(d, res, arg, first, s, j);
      } else {
        ArgChildIsEdge(d, res, arg, first, s, j);
      }
    }
  }

  lemma LayoutDistinct(d: Decomp, res: Decomp, arg: Decomp, first: bool)
    requires Layout(d, res, arg, first) && Frame(res) && Frame(arg)
    ensures DestinationsDistinct(d)
  {
    forall k | 0 <= k < |d.edges|
      ensures d.edges[k].1 != d.target
    {
      EdgeOrigin(d, res, arg, first, k);
    }
    forall j, k | 0 <= j < k < |d.edges|
      ensures d.edges[j].1 != d.edges[k].1
    {
      EdgeOrigin(d, res, arg, first, j);
      EdgeOrigin(d, res, arg, first, k);
    }
  }

  /** Combining two proof frames whose targets have opposite polarities gives a proof frame. */
  lemma CombineFrame(res: Decomp, arg: Decomp, first: bool)
    requires Frame(res) && Frame(arg)
    requires res.nodes[res.target].positive != arg.nodes[arg.target].positive
    ensures Frame(Combine(res, arg, first))
  {
    var d := Combine(res, arg, first);
    CombineLayout(res, arg, first);
    LayoutInRange(d, res, arg, first);
    LayoutPolar(d, res, arg, first);
    LayoutRecorded(d, res, arg, first);
    LayoutChildren(d, res, arg, first);
    LayoutDistinct(d, res, arg, first);
  }

  /**
   * Every lexical decomposition is a proof frame: each edge joins two nodes
   * of opposite polarity and is a child offset of its source, each child
   * offset is an edge, and no node (the target least of all) is entered by
   * two edges.
   */
  lemma {:induction false} DecomposeFrame(c: Cat, positive: bool)
    ensures Frame(Decompose(c, positive))
  {
    if c.Complex? {
      DecomposeFrame(c.result, positive);
      DecomposeFrame(c.argument, !positive);
      CombineFrame(Decompose(c.result, positive), Decompose(c.argument, !positive), ResultFirst(c.slash, positive));
    }
  }

  /** Leaf `k` of a rendering, with text `texts[k]` and polarity `pols[k]`, is node `idxs[k]`. */
  predicate LeavesAt(nodes: seq<Node>, idxs: seq<int>, texts: seq<string>, pols: seq<bool>) {
    |idxs| == |texts| == |pols|
    && forall k :: 0 <= k < |idxs| ==>
         0 <= idxs[k] < |nodes| && nodes[idxs[k]].atom == texts[k] && nodes[idxs[k]].positive == pols[k]
  }

  lemma LeavesAtAppend(nodes: seq<Node>, i1: seq<int>, t1: seq<string>, p1: seq<bool>,
                       i2: seq<int>, t2: seq<string>, p2: seq<bool>)
    requires LeavesAt(nodes, i1, t1, p1) && LeavesAt(nodes, i2, t2, p2)
    ensures LeavesAt(nodes, i1 + i2, t1 + t2, p1 + p2)
  {
    forall k | 0 <= k < |i1 + i2|
      ensures 0 <= (i1 + i2)[k] < |nodes| && nodes[(i1 + i2)[k]].atom == (t1 + t2)[k]
              && nodes[(i1 + i2)[k]].positive == (p1 + p2)[k]
    {
      if k >= |i1| {
        var m := k - |i1|;
        assert (i1 + i2)[k] == i2[m] && (t1 + t2)[k] == t2[m] && (p1 + p2)[k] == p2[m];
      }
    }
  }

  /** Leaves of a block stay at their nodes once the block is placed at `off` and its indices shifted with it. */
  lemma LeavesAtShifted(block: seq<Node>, nodes: seq<Node>, off: int, bi: seq<int>, idxs: seq<int>,
                        texts: seq<string>, pols: seq<bool>)
    requires LeavesAt(block, bi, texts, pols)
    requires 0 <= off && off + |block| <= |nodes|
    requires forall x :: off <= x < off + |block| ==>
               0 <= x < |nodes| && nodes[x].atom == block[x - off].atom && nodes[x].positive == block[x - off].positive
    requires |idxs| == |bi| && forall k :: 0 <= k < |bi| ==> idxs[k] == off + bi[k]
    ensures LeavesAt(nodes, idxs, texts, pols)
  {
  }

  lemma AtomTextsWrap(t: seq<Tok>)
    ensures AtomTexts(Wrap(t)) == AtomTexts(t)
  {
    if |t| > 1 {
      AtomTextsAppend([LParen] + t, [RParen]);
      AtomTextsAppend([LParen], t);
      assert AtomTexts([LParen]) == AtomTexts([]) + [];
      assert AtomTexts([RParen]) == AtomTexts([]) + [];
    }
  }

  lemma AtomTextsNonAtom(t: Tok)
    requires !t.AtomTok?
    ensures AtomTexts([t]) == []
  {
    assert [t][..0] == [];
  }

  lemma AtomTextsAround(x: seq<Tok>, sl: Slash, y: seq<Tok>)
    ensures AtomTexts(x + [SlashTok(sl)] + y) == AtomTexts(x) + AtomTexts(y)
  {
    AtomTextsAppend(x + [SlashTok(sl)], y);
    AtomTextsAppend(x, [SlashTok(sl)]);
    AtomTextsNonAtom(SlashTok(sl));
  }

  lemma ShiftZero(s: seq<int>)
    ensures Shift(s, 0) == s
  {
  }

  /** The leaf texts and the indices `_inorder` produces for a complex category, in terms of its two sides. */
  lemma InorderSides(c: Cat, lassoc: bool, lambek: bool, positive: bool)
    requires c.Complex?
    ensures var I := Inorder(c, lassoc, lambek, positive);
            var R := Inorder(c.result, lassoc, lambek, positive);
            var A := Inorder(c.argument, lassoc, lambek, !positive);
            var dR := Decompose(c.result, positive);
            var dA := Decompose(c.argument, !positive);
            var first := ResultFirst(c.slash, positive);
            var ri := Shift(R.idxs, ROff(dR, dA, first));
            var ai := Shift(A.idxs, AOff(dR, dA, first));
            if lambek && c.slash == Bwd then
              I.idxs == ai + ri && AtomTexts(I.toks) == AtomTexts(A.toks) + AtomTexts(R.toks)
            else
              I.idxs == ri + ai && AtomTexts(I.toks) == AtomTexts(R.toks) + AtomTexts(A.toks)
  {
    var R := Inorder(c.result, lassoc, lambek, positive);
    var A := Inorder(c.argument, lassoc, lambek, !positive);
    ShiftZero(R.idxs);
    ShiftZero(A.idxs);
    AtomTextsWrap(R.toks);
    AtomTextsWrap(A.toks);
    var rt := if lassoc then R.toks else Wrap(R.toks);
    if lambek && c.slash == Bwd {
      AtomTextsAround(Wrap(A.toks), Bwd, rt);
    } else {
      AtomTextsAround(rt, c.slash, Wrap(A.toks));
    }
  }

  /** Leaves of both sides stay at their nodes in a combination. */
  lemma LeavesCombine(d: Decomp, dR: Decomp, dA: Decomp, first: bool, swap: bool,
                      ri: seq<int>, rt: seq<string>, rp: seq<bool>, ai: seq<int>, at: seq<string>, ap: seq<bool>)
    requires Layout(d, dR, dA, first)
    requires LeavesAt(dR.nodes, ri, rt, rp) && LeavesAt(dA.nodes, ai, at, ap)
    ensures var r := Shift(ri, ROff(dR, dA, first));
            var a := Shift(ai, AOff(dR, dA, first));
            if swap then LeavesAt(d.nodes, a + r, at + rt, ap + rp)
            else LeavesAt(d.nodes, r + a, rt + at, rp + ap)
  {
    var r := Shift(ri, ROff(dR, dA, first));
    var a := Shift(ai, AOff(dR, dA, first));
    forall x | ROff(dR, dA, first) <= x < ROff(dR, dA, first) + |dR.nodes|
      ensures 0 <= x < |d.nodes| && d.nodes[x].atom == dR.nodes[x - ROff(dR, dA, first)].atom
              && d.nodes[x].positive == dR.nodes[x - ROff(dR, dA, first)].positive
    {
      assert ResNodePlaced(d, dR, ROff(dR, dA, first), x);
    }
    LeavesAtShifted(dR.nodes, d.nodes, ROff(dR, dA, first), ri, r, rt, rp);
    LeavesAtShifted(dA.nodes, d.nodes, AOff(dR, dA, first), ai, a, at, ap);
    if swap {
      LeavesAtAppend(d.nodes, a, at, ap, r, rt, rp);
    } else {
      LeavesAtAppend(d.nodes, r, rt, rp, a, at, ap);
    }
  }

  /**
   * The polarised index `_inorder` prints beside each leaf is the position
   * of that leaf's node in the decomposition: the node there carries the
   * leaf's atom and the leaf's polarity, whatever the rendering options.
   */
  lemma {:induction false} LeafNodes(c: Cat, lassoc: bool, lambek: bool, positive: bool)
    ensures var I := Inorder(c, lassoc, lambek, positive);
            LeavesAt(Decompose(c, positive).nodes, I.idxs, AtomTexts(I.toks), LeafPolarities(c, lambek, positive))
  {
    if c.Complex? {
      var R := Inorder(c.result, lassoc, lambek, positive);
      var A := Inorder(c.argument, lassoc, lambek, !positive);
      var dR := Decompose(c.result, positive);
      var dA := Decompose(c.argument, !positive);
      var first := ResultFirst(c.slash, positive);
      LeafNodes(c.result, lassoc, lambek, positive);
      LeafNodes(c.argument, lassoc, lambek, !positive);
      CombineLayout(dR, dA, first);
      InorderSides(c, lassoc, lambek, positive);
      LeavesCombine(Decompose(c, positive), dR, dA, first, lambek && c.slash == Bwd,
                    R.idxs, AtomTexts(R.toks), LeafPolarities(c.result, lambek, positive),
                    A.idxs, AtomTexts(A.toks), LeafPolarities(c.argument, lambek, !positive));
    }
  }

  /**
   * An intransitive verb `S\NP` in negative position, for any atoms `S`
   * and `NP`: the subject's node, then the verb's target `S` with the
   * subject as its one child.
   */
  lemma DecomposeIntransitiveVerb(sa: string, na: string)
    ensures Decompose(Complex(Bwd, Atom(sa), Atom(na)), false)
            == Decomp([Node(na, true, []), Node(sa, false, [-1])], [(1, 0)], 1)
  {
    DecomposeAtom(sa, false);
    DecomposeAtom(na, true);
    CombineIntransitive(sa, na);
  }

  lemma CombineIntransitive(sa: string, na: string)
    ensures Combine(Decomp([Node(sa, false, [])], [], 0), Decomp([Node(na, true, [])], [], 0), false)
            == Decomp([Node(na, true, []), Node(sa, false, [-1])], [(1, 0)], 1)
  {
    var np := Decomp([Node(na, true, [])], [], 0);
    var sm := Decomp([Node(sa, false, [])], [], 0);
    var nodes := CombineNodeSeq(sm, np, false);
    var all := CombineEdgeSeq(sm, np, false);
    assert ShiftEdges([], 1) == [];
    var none: seq<int> := [];
    assert [-1] + none == [-1];
    assert AddChild(sm.nodes, 0, -1) == [Node(sa, false, [-1])];
    assert nodes == [Node(na, true, [])] + [Node(sa, false, [-1])];
    assert all == [(1, 0)];
  }

  /**
   * A transitive verb `(S\NP)/NP` in negative position, for any atoms `S`
   * and `NP`: the subject's node, the verb's target `S` with its two
   * children (object first, then subject), and the object's node.
   */
  lemma DecomposeTransitiveVerb(sa: string, na: string)
    ensures Decompose(Complex(Fwd, Complex(Bwd, Atom(sa), Atom(na)), Atom(na)), false)
            == Decomp([Node(na, true, []), Node(sa, false, [1, -1]), Node(na, true, [])], [(1, 2), (1, 0)], 1)
  {
    DecomposeIntransitiveVerb(sa, na);
    DecomposeAtom(na, true);
    CombineTransitive(sa, na);
  }

  lemma CombineTransitive(sa: string, na: string)
    ensures Combine(Decomp([Node(na, true, []), Node(sa, false, [-1])], [(1, 0)], 1), Decomp([Node(na, true, [])], [], 0), true)
            == Decomp([Node(na, true, []), Node(sa, false, [1, -1]), Node(na, true, [])], [(1, 2), (1, 0)], 1)
  {
    var np := Decomp([Node(na, true, [])], [], 0);
    var inner := Decomp([Node(na, true, []), Node(sa, false, [-1])], [(1, 0)], 1);
    var nodes := CombineNodeSeq(inner, np, true);
    var all := CombineEdgeSeq(inner, np, true);
    assert Marked(inner, NewEdge(inner, np, true)).nodes == AddChild(inner.nodes, 1, 1);
    MarkTransitive(sa, na, inner.nodes);
    assert ShiftEdges([], 2) == [];
    assert all == [(1, 2)] + ([(1, 0)] + []);
  }

  lemma MarkTransitive(sa: string, na: string, nodes: seq<Node>)
    requires nodes == [Node(na, true, []), Node(sa, false, [-1])]
    ensures AddChild(nodes, 1, 1) + [Node(na, true, [])] == [Node(na, true, []), Node(sa, false, [1, -1]), Node(na, true, [])]
  {
    assert [1] + [-1] == [1, -1];
    assert AddChild(nodes, 1, 1) == [Node(na, true, []), Node(sa, false, [1, -1])];
  }
}
