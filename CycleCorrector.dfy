/** `correct_toll_graph`: in every weakly connected component but the first, walk
    the nodes in depth-first preorder from the north-east-most node and keep, for
    each node, only its first out-edge to the next node of the preorder. */
module CycleCorrector {
  import opened Results
  import opened Sequences
  import opened RoadGraph
  import opened NodeRanking

  /** The first edge from `n` to `t`, in edge order. */
  function FirstTo(edges: seq<Edge>, n: NodeId, t: NodeId): (r: Option<Edge>)
    ensures r.Some? ==> r.value in edges && r.value.u == n && r.value.v == t
  {
    if edges == [] then None
    else
      var init := edges[..|edges| - 1];
      var last := edges[|edges| - 1];
      assert edges == init + [last];
      var f := FirstTo(init, n, t);
      if f.Some? then f
      else if last.u == n && last.v == t then Some(last)
      else None
  }

  /** No first edge means no edge from `n` to `t` at all. */
  lemma {:induction false} FirstToNone(edges: seq<Edge>, n: NodeId, t: NodeId)
    requires FirstTo(edges, n, t).None?
    ensures forall e :: e in edges && e.u == n ==> e.v != t
  {
    if edges != [] {
      var init := edges[..|edges| - 1];
      assert edges == init + [edges[|edges| - 1]];
      FirstToNone(init, n, t);
    }
  }

  function KeepsOnly(n: NodeId, keep: Option<Edge>): Edge -> bool {
    (e: Edge) => e.u != n || Some(e) == keep
  }

  /** The edges once `n` keeps only its first out-edge to `succ`. */
  function PrunedEdges(edges: seq<Edge>, n: NodeId, succ: NodeId): seq<Edge> {
    Filter(edges, KeepsOnly(n, FirstTo(edges, n, succ)))
  }

  /** `dfs_nodes[j + 1]`, when it exists. */
  function Successor(pre: seq<NodeId>, j: nat): Option<NodeId> {
    if j + 1 < |pre| then Some(pre[j + 1]) else None
  }

  /** One pass of the `for j, node` loop: a node with out-edges but no successor in the
      preorder raises `IndexError` before anything of it is removed. */
  function PruneNode(edges: seq<Edge>, n: NodeId, succ: Option<NodeId>): Result<seq<Edge>> {
    if succ.Some? then Ok(PrunedEdges(edges, n, succ.value))
    else if OutEdges(edges, n) == [] then Ok(edges)
    else Err(IndexOutOfRange)
  }

  /** How far a pass got, and the edges at that point. */
  datatype Progress = Progress(outcome: Outcome, edges: seq<Edge>)

  /** The preorder loop from position `j` on. */
  function PruneNodes(edges: seq<Edge>, pre: seq<NodeId>, j: nat): Progress
    requires j <= |pre|
    decreases |pre| - j
  {
    if j == |pre| then Progress(Pass, edges)
    else
      match PruneNode(edges, pre[j], Successor(pre, j))
      case Err(e) => Progress(Fail(e), edges)
      case Ok(next) => PruneNodes(next, pre, j + 1)
  }

  /** The outcome, the edges left, and the preorders walked, one per component visited. */
  datatype Pruning = Pruning(outcome: Outcome, edges: seq<Edge>, visits: seq<seq<NodeId>>)

  /** One iteration of the component loop: the preorder walked and how its pass went. */
  datatype Visit = Visit(pre: seq<NodeId>, progress: Progress)

  /** What the component loop does with component `k`, given the current edges. */
  type ComponentPass = (seq<Edge>, nat) -> Visit

  /** Component `k`: `dfs_nodes` is the preorder of the current graph from the
      north-east-most node of the component, then every node of it is pruned. */
  function VisitComponent(nodes: map<NodeId, NodeAttrs>, comps: seq<seq<NodeId>>, dfs: Preorder, k: nat,
                          edges: seq<Edge>): Visit
    requires k < |comps| && comps[k] != [] && InGraph(Graph(nodes, edges), comps[k])
  {
    var g := Graph(nodes, edges);
    var pre := dfs(g, MaxNode(g, comps[k]));
    Visit(pre, PruneNodes(edges, pre, 0))
  }

  /** The loop body over the components of a graph with these nodes. The guard holds
      whenever the components come from the graph. */
  function PassOf(nodes: map<NodeId, NodeAttrs>, comps: seq<seq<NodeId>>, dfs: Preorder): ComponentPass {
    (edges: seq<Edge>, k: nat) =>
      if k < |comps| && comps[k] != [] && InGraph(Graph(nodes, edges), comps[k])
      then VisitComponent(nodes, comps, dfs, k, edges)
      else Visit([], Progress(Pass, edges))
  }

  /** The component loop from component `i` up to `count`; it stops at the first `IndexError`. */
  function CorrectFrom(pass: ComponentPass, count: nat, i: nat, edges: seq<Edge>, visits: seq<seq<NodeId>>): Pruning
    requires i <= count
    decreases count - i
  {
    if i == count then Pruning(Pass, edges, visits)
    else
      var v := pass(edges, i);
      if v.progress.outcome.Fail? then Pruning(v.progress.outcome, v.progress.edges, visits + [v.pre])
      else CorrectFrom(pass, count, i + 1, v.progress.edges, visits + [v.pre])
  }

  /** The whole function; component 0 is skipped. */
  function Corrected(g: Graph, comps: seq<seq<NodeId>>, dfs: Preorder): Pruning {
    if |comps| <= 1 then Pruning(Pass, g.edges, [])
    else CorrectFrom(PassOf(g.nodes, comps, dfs), |comps|, 1, g.edges, [])
  }

  // ---------------------------------------------------------------------
  // The methods

  function Removable(first: Option<Edge>): Edge -> bool {
    (e: Edge) => Some(e) != first
  }

  function NotIn(removed: seq<Edge>): Edge -> bool {
    (e: Edge) => e !in removed
  }

  /** The body of the `for j, node` loop: collect the duplicate and off-preorder
      out-edges of `node`, then remove them. */
  method PruneOutEdges(g: MultiDiGraph, node: NodeId, succ: Option<NodeId>) returns (outcome: Outcome)
    requires g.Valid()
    modifies g
    ensures g.Valid() && g.nodes == old(g.nodes)
    ensures var r := PruneNode(old(g.edges), node, succ);
      && outcome == (if r.Ok? then Pass else Fail(r.error))
      && g.edges == (if r.Ok? then r.value else old(g.edges))
  {
    var out := OutEdges(g.edges, node);
    SubsequenceUniqueSlots(g.edges, IsOutEdgeOf(node));
    var edgesToRemove := CollectRemovals(out, node, succ);
    if edgesToRemove.Err? {
      return Fail(edgesToRemove.error);
    }
    ghost var before := g.edges;
    if succ.Some? {
      RemovalSet(before, node, succ.value, edgesToRemove.value);
    } else {
      FilterAll(before, NotIn([]));
    }
    RemoveEdges(g, edgesToRemove.value);
    if succ.Some? {
      FilterCongruent(before, NotIn(edgesToRemove.value), KeepsOnly(node, FirstTo(before, node, succ.value)));
    }
    outcome := Pass;
  }

  /** The scan over the out-edges of `node` with its `visited` set: a repeated target is
      removed, and so is the first edge to any target other than `succ`. Without a
      successor, the first out-edge raises `IndexError`. */
  method CollectRemovals(out: seq<Edge>, node: NodeId, succ: Option<NodeId>) returns (r: Result<seq<Edge>>)
    requires UniqueSlots(out) && forall e :: e in out ==> e.u == node
    ensures succ.None? ==> r == (if out == [] then Ok([]) else Err(IndexOutOfRange))
    ensures succ.Some? ==> r == Ok(Filter(out, Removable(FirstTo(out, node, succ.value))))
  {
    if succ.None? {
      // The first out-edge is never a repeat, so it reaches `dfs_nodes[j + 1]` at once.
      return if out == [] then Ok([]) else Err(IndexOutOfRange);
    }
    var s := succ.value;
    var edgesToRemove: seq<Edge> := [];
    var visited: set<NodeId> := {};
    for i := 0 to |out|
      invariant forall v :: v in visited <==> Reaches(out[..i], v)
      invariant edgesToRemove == Scan(out[..i], s)
    {
      var e := out[i];
      assert out[..i + 1] == out[..i] + [e];
      ScanSnoc(out[..i], e, s);
      TargetsSnoc(out[..i], e);
      if e.v in visited {
        edgesToRemove := edgesToRemove + [e];
        continue;
      }
      visited := visited + {e.v};
      if e.v != s {
        edgesToRemove := edgesToRemove + [e];
      }
    }
    assert out[..|out|] == out;
    ScanIsFilter(out, node, s);
    r := Ok(edgesToRemove);
  }

  /** `for u, v, k in edges_to_remove: graph.remove_edge(u, v, k)`. */
  method RemoveEdges(g: MultiDiGraph, removed: seq<Edge>)
    requires g.Valid() && UniqueSlots(removed)
    requires forall e :: e in removed ==> e in g.edges
    modifies g
    ensures g.Valid() && g.nodes == old(g.nodes)
    ensures g.edges == Filter(old(g.edges), NotIn(removed))
  {
    ghost var before := g.edges;
    FilterAll(before, NotIn([]));
    assert removed[..0] == [];
    for k := 0 to |removed|
      invariant g.Valid() && g.nodes == old(g.nodes)
      invariant g.edges == Filter(before, NotIn(removed[..k]))
    {
      var e := removed[k];
      DistinctPrefix(removed, k);
      RemoveOne(before, removed, k);
      g.RemoveEdge(e.u, e.v, e.key);
    }
    assert removed[..|removed|] == removed;
  }

  /** The loop over the preorder of one component. */
  method PruneComponent(g: MultiDiGraph, pre: seq<NodeId>) returns (outcome: Outcome)
    requires g.Valid()
    modifies g
    ensures g.Valid() && g.nodes == old(g.nodes)
    ensures var p := PruneNodes(old(g.edges), pre, 0); outcome == p.outcome && g.edges == p.edges
  {
    for j := 0 to |pre|
      invariant g.Valid() && g.nodes == old(g.nodes)
      invariant PruneNodes(old(g.edges), pre, 0) == PruneNodes(g.edges, pre, j)
    {
      var succ := if j + 1 < |pre| then Some(pre[j + 1]) else None;
      outcome := PruneOutEdges(g, pre[j], succ);
      if outcome.Fail? {
        return;
      }
    }
    outcome := Pass;
  }

  /** `correct_toll_graph` on the graph object; `comps` is
      `list(nx.weakly_connected_components(graph))`, taken once at the start. */
  method CorrectTollGraph(g: MultiDiGraph, comps: seq<seq<NodeId>>, dfs: Preorder) returns (outcome: Outcome)
    requires g.Valid() && ValidComponents(g.nodes, comps)
    modifies g
    ensures g.Valid() && g.nodes == old(g.nodes)
    ensures var p := Corrected(old(g.Snapshot()), comps, dfs); outcome == p.outcome && g.edges == p.edges
  {
    if |comps| <= 1 {
      return Pass;
    }
    ghost var pass := PassOf(g.nodes, comps, dfs);
    ghost var visits: seq<seq<NodeId>> := [];
    var i := 1;
    while i < |comps|
      invariant 1 <= i <= |comps|
      invariant g.Valid() && g.nodes == old(g.nodes)
      invariant Corrected(old(g.Snapshot()), comps, dfs) == CorrectFrom(pass, |comps|, i, g.edges, visits)
    {
      InGraphAnyEdges(g.nodes, g.edges, comps[i]);
      var neNode := MaxNode(g.Snapshot(), comps[i]);
      var dfsNodes := dfs(g.Snapshot(), neNode);
      assert pass(g.edges, i) == Visit(dfsNodes, PruneNodes(g.edges, dfsNodes, 0));
      outcome := PruneComponent(g, dfsNodes);
      visits := visits + [dfsNodes];
      if outcome.Fail? {
        return;
      }
      i := i + 1;
    }
    outcome := Pass;
  }

  // ---------------------------------------------------------------------
  // What the scan computes

  lemma FirstToPrefix(s: seq<Edge>, i: nat, n: NodeId, t: NodeId)
    requires i <= |s| && FirstTo(s[..i], n, t).Some?
    ensures FirstTo(s, n, t) == FirstTo(s[..i], n, t)
    decreases |s|
  {
    if i < |s| {
      var init := s[..|s| - 1];
      assert init[..i] == s[..i];
      FirstToPrefix(init, i, n, t);
    } else {
      assert s[..i] == s;
    }
  }

  lemma DistinctPrefix(s: seq<Edge>, i: nat)
    requires UniqueSlots(s) && i < |s|
    ensures s[i] !in s[..i]
  {
    forall k | 0 <= k < i ensures s[..i][k] != s[i] {
      assert !SameSlot(s[k], s[i]);
    }
  }

  /** In a list with unique slots, an edge is the only one with its slot. */
  lemma SlotIdentifies(s: seq<Edge>, x: Edge, e: Edge)
    requires UniqueSlots(s) && x in s && e in s && SameSlot(x, e)
    ensures x == e
  {
    var a :| 0 <= a < |s| && s[a] == x;
    var b :| 0 <= b < |s| && s[b] == e;
    assert a == b;
  }

  /** Some edge of `s` goes to `v`. */
  ghost predicate Reaches(s: seq<Edge>, v: NodeId) {
    exists x :: x in s && x.v == v
  }

  lemma TargetsSnoc(s: seq<Edge>, e: Edge)
    ensures forall v :: Reaches(s + [e], v) <==> Reaches(s, v) || e.v == v
  {
    assert forall x :: x in s + [e] <==> x in s || x == e;
  }

  /** What the scan collects, edge by edge: a repeated target, or a target other than
      the successor. */
  ghost function Scan(out: seq<Edge>, s: NodeId): seq<Edge> {
    if out == [] then []
    else
      var init := out[..|out| - 1];
      var e := out[|out| - 1];
      Scan(init, s) + (if Reaches(init, e.v) || e.v != s then [e] else [])
  }

  lemma ScanSnoc(out: seq<Edge>, e: Edge, s: NodeId)
    ensures Scan(out + [e], s) == Scan(out, s) + (if Reaches(out, e.v) || e.v != s then [e] else [])
  {
    assert (out + [e])[..|out + [e]| - 1] == out;
  }

  /** The scan removes every out-edge of `node` except the first one to `s`. */
  lemma {:induction false} ScanIsFilter(out: seq<Edge>, node: NodeId, s: NodeId)
    requires UniqueSlots(out) && forall e :: e in out ==> e.u == node
    ensures Scan(out, s) == Filter(out, Removable(FirstTo(out, node, s)))
  {
    if out != [] {
      var init := out[..|out| - 1];
      var e := out[|out| - 1];
      assert out == init + [e];
      assert UniqueSlots(init);
      ScanIsFilter(init, node, s);
      DistinctPrefix(out, |out| - 1);
      FirstToSnoc(init, e, node, s);
      FilterSnoc(init, e, Removable(FirstTo(out, node, s)));
      var f := FirstTo(init, node, s);
      if f.Some? {
        assert Reaches(init, s);
      } else {
        FirstToNone(init, node, s);
        assert !Reaches(init, s);
        FilterCongruent(init, Removable(FirstTo(out, node, s)), Removable(f));
      }
    }
  }

  /** The edges the scan collects are exactly the out-edges of `node` other than the first
      one to `succ`, so removing them leaves `PrunedEdges`. */
  lemma RemovalSet(edges: seq<Edge>, node: NodeId, succ: NodeId, removed: seq<Edge>)
    requires removed == Filter(OutEdges(edges, node), Removable(FirstTo(OutEdges(edges, node), node, succ)))
    requires UniqueSlots(edges)
    ensures forall e :: e in edges ==> NotIn(removed)(e) == KeepsOnly(node, FirstTo(edges, node, succ))(e)
    ensures UniqueSlots(removed) && forall e :: e in removed ==> e in edges
  {
    FirstToOut(edges, node, succ);
    SubsequenceUniqueSlots(edges, IsOutEdgeOf(node));
    SubsequenceUniqueSlots(OutEdges(edges, node), Removable(FirstTo(OutEdges(edges, node), node, succ)));
  }

  /** `FirstTo` only looks at the out-edges of `n`. */
  lemma {:induction false} FirstToOut(edges: seq<Edge>, n: NodeId, t: NodeId)
    ensures FirstTo(OutEdges(edges, n), n, t) == FirstTo(edges, n, t)
  {
    if edges != [] {
      var init := edges[..|edges| - 1];
      var last := edges[|edges| - 1];
      assert edges == init + [last];
      FirstToOut(init, n, t);
      FilterSnoc(init, last, IsOutEdgeOf(n));
      FirstToSnoc(init, last, n, t);
      var oi := OutEdges(init, n);
      if last.u == n {
        FirstToSnoc(oi, last, n, t);
      } else {
        assert OutEdges(edges, n) == oi;
      }
    }
  }

  lemma FirstToSnoc(s: seq<Edge>, e: Edge, n: NodeId, t: NodeId)
    ensures FirstTo(s + [e], n, t) == if FirstTo(s, n, t).Some? then FirstTo(s, n, t)
      else if e.u == n && e.v == t then Some(e) else None
  {
    assert (s + [e])[..|s + [e]| - 1] == s;
  }

  /** Removing the next collected edge, which is still present exactly once. */
  lemma RemoveOne(before: seq<Edge>, removed: seq<Edge>, k: nat)
    requires UniqueSlots(before) && k < |removed|
    requires removed[k] in before && removed[k] !in removed[..k]
    ensures var e := removed[k];
      var cur := Filter(before, NotIn(removed[..k]));
      && (exists x :: x in cur && x.u == e.u && x.v == e.v && x.key == e.key)
      && Filter(cur, IsNotSlot(e.u, e.v, e.key)) == Filter(before, NotIn(removed[..k + 1]))
  {
    var e := removed[k];
    var cur := Filter(before, NotIn(removed[..k]));
    assert e in cur;
    SubsequenceUniqueSlots(before, NotIn(removed[..k]));
    forall x | x in cur ensures IsNotSlot(e.u, e.v, e.key)(x) == (x != e) {
      if SameSlot(x, e) {
        SlotIdentifies(cur, x, e);
      }
    }
    NotInSnoc(removed, k);
    FilterCongruent(cur, IsNotSlot(e.u, e.v, e.key), (x: Edge) => x != e);
    FilterFilter(before, NotIn(removed[..k]), (x: Edge) => x != e, NotIn(removed[..k + 1]));
  }

  lemma NotInSnoc(removed: seq<Edge>, k: nat)
    requires k < |removed|
    ensures forall x :: NotIn(removed[..k + 1])(x) == (NotIn(removed[..k])(x) && x != removed[k])
  {
    assert removed[..k + 1] == removed[..k] + [removed[k]];
  }

  // ---------------------------------------------------------------------
  // One preorder

  /** One node's pass only removes edges, and keeps the graph well formed. */
  lemma PruneNodeRemoves(nodes: map<NodeId, NodeAttrs>, edges: seq<Edge>, n: NodeId, succ: Option<NodeId>)
    requires WellFormed(Graph(nodes, edges))
    ensures var r := PruneNode(edges, n, succ);
      r.Ok? ==> WellFormed(Graph(nodes, r.value)) && multiset(r.value) <= multiset(edges)
  {
    if succ.Some? {
      var keep := KeepsOnly(n, FirstTo(edges, n, succ.value));
      SubsequenceUniqueSlots(edges, keep);
      FilterSubMultiset(edges, keep);
    }
  }

  lemma {:induction false} PruneNodesRemoves(nodes: map<NodeId, NodeAttrs>, edges: seq<Edge>, pre: seq<NodeId>, j: nat)
    requires j <= |pre| && WellFormed(Graph(nodes, edges))
    ensures var p := PruneNodes(edges, pre, j);
      WellFormed(Graph(nodes, p.edges)) && multiset(p.edges) <= multiset(edges)
    decreases |pre| - j
  {
    if j < |pre| {
      var r := PruneNode(edges, pre[j], Successor(pre, j));
      PruneNodeRemoves(nodes, edges, pre[j], Successor(pre, j));
      if r.Ok? {
        PruneNodesRemoves(nodes, r.value, pre, j + 1);
      }
    }
  }

  /** A node with no out-edges keeps none. */
  lemma NoOutEdgesStays(before: seq<Edge>, after: seq<Edge>, n: NodeId)
    requires multiset(after) <= multiset(before) && OutEdges(before, n) == []
    ensures OutEdges(after, n) == []
  {
    forall i | 0 <= i < |after| ensures !IsOutEdgeOf(n)(after[i]) {
      assert after[i] in multiset(after);
    }
    FilterNone(after, IsOutEdgeOf(n));
  }

  /** A pass over one preorder fails only at its last node, which still has out-edges
      when the `IndexError` is raised. */
  lemma {:induction false} PruneNodesFails(edges: seq<Edge>, pre: seq<NodeId>, j: nat)
    requires j <= |pre|
    ensures var p := PruneNodes(edges, pre, j);
      p.outcome.Fail? ==> p.outcome.error == IndexOutOfRange && j < |pre| && |OutEdges(p.edges, pre[|pre| - 1])| > 0
    decreases |pre| - j
  {
    if j < |pre| {
      var r := PruneNode(edges, pre[j], Successor(pre, j));
      if r.Ok? {
        PruneNodesFails(r.value, pre, j + 1);
      }
    }
  }

  /** A pass that completes leaves the last node of the preorder without out-edges. */
  lemma {:induction false} PruneNodesPasses(edges: seq<Edge>, pre: seq<NodeId>, j: nat)
    requires j < |pre|
    ensures var p := PruneNodes(edges, pre, j);
      p.outcome.Pass? ==> OutEdges(p.edges, pre[|pre| - 1]) == []
    decreases |pre| - j
  {
    var r := PruneNode(edges, pre[j], Successor(pre, j));
    if r.Ok? && j + 1 < |pre| {
      PruneNodesPasses(r.value, pre, j + 1);
    }
  }

  /** `Some(e) == first`: the one out-edge a pass keeps. */
  function Chosen(first: Option<Edge>): Edge -> bool {
    (e: Edge) => Some(e) == first
  }

  /** The out-edges a node keeps after its pass: its first edge to the successor, if it
      has one; nothing when it has no successor (a pass over a node with out-edges and no
      successor fails instead). */
  function KeptOut(edges: seq<Edge>, n: NodeId, succ: Option<NodeId>): (r: seq<Edge>)
    ensures |r| <= 1
    ensures forall e :: e in r ==> e in edges && e.u == n && succ == Some(e.v)
  {
    if succ.None? then []
    else
      var first := FirstTo(edges, n, succ.value);
      if first.Some? then [first.value] else []
  }

  /** What a node keeps depends only on its own out-edges. */
  lemma KeptOutLocal(a: seq<Edge>, b: seq<Edge>, n: NodeId, succ: Option<NodeId>)
    requires OutEdges(a, n) == OutEdges(b, n)
    ensures KeptOut(a, n, succ) == KeptOut(b, n, succ)
  {
    if succ.Some? {
      FirstToOut(a, n, succ.value);
      FirstToOut(b, n, succ.value);
    }
  }

  /** With unique slots, an edge occurs once. */
  lemma {:induction false} FilterSingle(edges: seq<Edge>, e: Edge)
    requires UniqueSlots(edges) && e in edges
    ensures Filter(edges, Chosen(Some(e))) == [e]
  {
    var init := edges[..|edges| - 1];
    var last := edges[|edges| - 1];
    assert edges == init + [last];
    FilterSnoc(init, last, Chosen(Some(e)));
    assert UniqueSlots(init);
    if last == e {
      DistinctPrefix(edges, |edges| - 1);
      FilterNone(init, Chosen(Some(e)));
    } else {
      FilterSingle(init, e);
    }
  }

  /** The pass over one node leaves it exactly `KeptOut`. */
  lemma PruneNodeSelf(edges: seq<Edge>, n: NodeId, succ: Option<NodeId>)
    requires UniqueSlots(edges)
    ensures var r := PruneNode(edges, n, succ);
      r.Ok? ==> OutEdges(r.value, n) == KeptOut(edges, n, succ)
  {
    if succ.Some? {
      var first := FirstTo(edges, n, succ.value);
      var after := PrunedEdges(edges, n, succ.value);
      assert after == Filter(edges, KeepsOnly(n, first));
      FilterFilter(edges, KeepsOnly(n, first), IsOutEdgeOf(n), Chosen(first));
      assert OutEdges(after, n) == Filter(edges, Chosen(first));
      if first.Some? {
        FilterSingle(edges, first.value);
      } else {
        FilterNone(edges, Chosen(first));
      }
    }
  }

  /** The pass over one node leaves the out-edges of every other node alone. */
  lemma PruneNodeOther(edges: seq<Edge>, m: NodeId, succ: Option<NodeId>, n: NodeId)
    requires m != n
    ensures var r := PruneNode(edges, m, succ);
      r.Ok? ==> OutEdges(r.value, n) == OutEdges(edges, n)
  {
    if succ.Some? {
      FilterFilter(edges, KeepsOnly(m, FirstTo(edges, m, succ.value)), IsOutEdgeOf(n), IsOutEdgeOf(n));
    }
  }

  lemma {:induction false} PruneNodesOther(edges: seq<Edge>, pre: seq<NodeId>, j: nat, n: NodeId)
    requires j <= |pre| && forall k :: j <= k < |pre| ==> pre[k] != n
    ensures OutEdges(PruneNodes(edges, pre, j).edges, n) == OutEdges(edges, n)
    decreases |pre| - j
  {
    if j < |pre| {
      var r := PruneNode(edges, pre[j], Successor(pre, j));
      if r.Ok? {
        assert PruneNodes(edges, pre, j) == PruneNodes(r.value, pre, j + 1);
        PruneNodeOther(edges, pre[j], Successor(pre, j), n);
        PruneNodesOther(r.value, pre, j + 1, n);
      }
    }
  }

  /** A node that occurs once in a preorder, at `at`, ends the pass with `KeptOut`. */
  lemma {:induction false} PruneNodesSelf(edges: seq<Edge>, pre: seq<NodeId>, j: nat, n: NodeId, at: nat)
    requires j <= at < |pre| && pre[at] == n && UniqueSlots(edges)
    requires forall k :: j <= k < |pre| && k != at ==> pre[k] != n
    ensures var p := PruneNodes(edges, pre, j);
      p.outcome.Pass? ==> OutEdges(p.edges, n) == KeptOut(edges, n, Successor(pre, at))
    decreases |pre| - j
  {
    var r := PruneNode(edges, pre[j], Successor(pre, j));
    if r.Ok? {
      assert PruneNodes(edges, pre, j) == PruneNodes(r.value, pre, j + 1);
      if j == at {
        PruneNodeSelf(edges, n, Successor(pre, j));
        PruneNodesOther(r.value, pre, j + 1, n);
      } else {
        PruneNodeOther(edges, pre[j], Successor(pre, j), n);
        if Successor(pre, j).Some? {
          SubsequenceUniqueSlots(edges, KeepsOnly(pre[j], FirstTo(edges, pre[j], Successor(pre, j).value)));
        }
        KeptOutLocal(r.value, edges, n, Successor(pre, at));
        PruneNodesSelf(r.value, pre, j + 1, n, at);
      }
    }
  }

  // ---------------------------------------------------------------------
  // What the component loop guarantees, for any pass with the properties below

  /** `n` occurs in `pre` exactly once, at position `j`. */
  ghost predicate OnceAt(pre: seq<NodeId>, n: NodeId, j: int) {
    0 <= j < |pre| && pre[j] == n && n !in pre[..j] && n !in pre[j + 1..]
  }

  /** The visit only removes edges from `e` and keeps the invariant `inv` of the edges. */
  ghost predicate Shrinks(inv: seq<Edge> -> bool, e: seq<Edge>, v: Visit) {
    inv(e) ==> inv(v.progress.edges) && multiset(v.progress.edges) <= multiset(e)
  }

  /** The visit fails only with the `IndexError` of the last node of its preorder, which
      still has out-edges. */
  ghost predicate FailsAtEnd(v: Visit) {
    v.progress.outcome.Fail? ==>
      && v.progress.outcome.error == IndexOutOfRange && |v.pre| > 0
      && |OutEdges(v.progress.edges, v.pre[|v.pre| - 1])| > 0
  }

  /** A visit that completes leaves the last node of its preorder without out-edges. */
  ghost predicate EmptiesLast(v: Visit) {
    v.progress.outcome.Pass? && |v.pre| > 0 ==> OutEdges(v.progress.edges, v.pre[|v.pre| - 1]) == []
  }

  /** The visit leaves the out-edges of `n` alone when its preorder misses `n`. */
  ghost predicate KeepsOther(e: seq<Edge>, v: Visit, n: NodeId) {
    n !in v.pre ==> OutEdges(v.progress.edges, n) == OutEdges(e, n)
  }

  /** A visit that completes leaves a node occurring once in its preorder `KeptOut`. */
  ghost predicate KeepsFirst(inv: seq<Edge> -> bool, e: seq<Edge>, v: Visit, n: NodeId) {
    forall j :: inv(e) && v.progress.outcome.Pass? && OnceAt(v.pre, n, j) ==>
      OutEdges(v.progress.edges, n) == KeptOut(e, n, Successor(v.pre, j))
  }

  ghost predicate PassRemoves(inv: seq<Edge> -> bool, pass: ComponentPass, count: nat) {
    forall e, k {:trigger Shrinks(inv, e, pass(e, k))} :: 0 <= k < count ==> Shrinks(inv, e, pass(e, k))
  }

  ghost predicate PassFailsAtEnd(pass: ComponentPass, count: nat) {
    forall e, k {:trigger FailsAtEnd(pass(e, k))} :: 0 <= k < count ==> FailsAtEnd(pass(e, k))
  }

  ghost predicate PassEmptiesLast(pass: ComponentPass, count: nat) {
    forall e, k {:trigger EmptiesLast(pass(e, k))} :: 0 <= k < count ==> EmptiesLast(pass(e, k))
  }

  ghost predicate PassKeepsOther(pass: ComponentPass, count: nat, n: NodeId) {
    forall e, k {:trigger KeepsOther(e, pass(e, k), n)} :: 0 <= k < count ==> KeepsOther(e, pass(e, k), n)
  }

  ghost predicate PassKeepsFirst(inv: seq<Edge> -> bool, pass: ComponentPass, count: nat, n: NodeId) {
    forall e, k {:trigger KeepsFirst(inv, e, pass(e, k), n)} :: 0 <= k < count ==> KeepsFirst(inv, e, pass(e, k), n)
  }

  /** `n` occurs in no preorder of `visits` from position `from` on. */
  ghost predicate Unvisited(visits: seq<seq<NodeId>>, from: nat, n: NodeId) {
    forall k :: from <= k < |visits| ==> n !in visits[k]
  }

  /** The walk extends the preorders given, by the preorder of each component visited. */
  lemma {:induction false} CorrectFromVisits(pass: ComponentPass, count: nat, i: nat, edges: seq<Edge>,
                                             visits: seq<seq<NodeId>>)
    requires i <= count
    ensures var r := CorrectFrom(pass, count, i, edges, visits);
      && |visits| <= |r.visits| <= |visits| + count - i && r.visits[..|visits|] == visits
      && (r.outcome.Pass? ==> |r.visits| == |visits| + count - i)
      && (i < count ==> |visits| < |r.visits| && r.visits[|visits|] == pass(edges, i).pre)
    decreases count - i
  {
    if i < count {
      var v := pass(edges, i);
      if v.progress.outcome.Pass? {
        var r := CorrectFrom(pass, count, i + 1, v.progress.edges, visits + [v.pre]);
        CorrectFromVisits(pass, count, i + 1, v.progress.edges, visits + [v.pre]);
        assert r.visits[..|visits|] == (r.visits[..|visits| + 1])[..|visits|];
        assert r.visits[|visits|] == (r.visits[..|visits| + 1])[|visits|];
      } else {
        assert (visits + [v.pre])[..|visits|] == visits;
      }
    }
  }

  /** The first preorder added is that of pass `i`. */
  lemma CorrectFromHead(pass: ComponentPass, count: nat, i: nat, edges: seq<Edge>, visits: seq<seq<NodeId>>)
    requires i < count
    ensures var r := CorrectFrom(pass, count, i, edges, visits);
      |visits| < |r.visits| && r.visits[|visits|] == pass(edges, i).pre
  {
    CorrectFromVisits(pass, count, i, edges, visits);
  }

  lemma {:induction false} CorrectFromRemoves(inv: seq<Edge> -> bool, pass: ComponentPass, count: nat, i: nat,
                                              edges: seq<Edge>, visits: seq<seq<NodeId>>)
    requires i <= count && PassRemoves(inv, pass, count) && inv(edges)
    ensures var r := CorrectFrom(pass, count, i, edges, visits);
      inv(r.edges) && multiset(r.edges) <= multiset(edges)
    decreases count - i
  {
    if i < count {
      var v := pass(edges, i);
      assert Shrinks(inv, edges, v);
      if v.progress.outcome.Pass? {
        CorrectFromRemoves(inv, pass, count, i + 1, v.progress.edges, visits + [v.pre]);
      }
    }
  }

  lemma {:induction false} CorrectFromFails(pass: ComponentPass, count: nat, i: nat, edges: seq<Edge>,
                                            visits: seq<seq<NodeId>>)
    requires i <= count && PassFailsAtEnd(pass, count)
    ensures var r := CorrectFrom(pass, count, i, edges, visits);
      r.outcome.Fail? ==>
        && r.outcome.error == IndexOutOfRange && |visits| < |r.visits|
        && var last := r.visits[|r.visits| - 1];
           |last| > 0 && |OutEdges(r.edges, last[|last| - 1])| > 0
    decreases count - i
  {
    if i < count {
      var v := pass(edges, i);
      assert FailsAtEnd(v);
      if v.progress.outcome.Pass? {
        CorrectFromFails(pass, count, i + 1, v.progress.edges, visits + [v.pre]);
      } else {
        assert (visits + [v.pre])[|visits|] == v.pre;
      }
    }
  }

  /** The last node of the preorder of pass `i` keeps no out-edge through the later passes. */
  lemma EmptiedStays(inv: seq<Edge> -> bool, pass: ComponentPass, count: nat, i: nat, edges: seq<Edge>,
                     visits: seq<seq<NodeId>>)
    requires i < count && PassRemoves(inv, pass, count) && PassEmptiesLast(pass, count) && inv(edges)
    requires pass(edges, i).progress.outcome.Pass? && pass(edges, i).pre != []
    ensures var v := pass(edges, i);
      OutEdges(CorrectFrom(pass, count, i + 1, v.progress.edges, visits + [v.pre]).edges, v.pre[|v.pre| - 1]) == []
  {
    var v := pass(edges, i);
    var r := CorrectFrom(pass, count, i + 1, v.progress.edges, visits + [v.pre]);
    assert Shrinks(inv, edges, v) && EmptiesLast(v);
    CorrectFromRemoves(inv, pass, count, i + 1, v.progress.edges, visits + [v.pre]);
    NoOutEdgesStays(v.progress.edges, r.edges, v.pre[|v.pre| - 1]);
  }

  lemma {:induction false} CorrectFromPasses(inv: seq<Edge> -> bool, pass: ComponentPass, count: nat, i: nat,
                                             edges: seq<Edge>, visits: seq<seq<NodeId>>)
    requires i <= count && PassRemoves(inv, pass, count) && PassEmptiesLast(pass, count)
    requires inv(edges)
    ensures var r := CorrectFrom(pass, count, i, edges, visits);
      r.outcome.Pass? ==>
        forall k :: |visits| <= k < |r.visits| && r.visits[k] != [] ==>
          OutEdges(r.edges, r.visits[k][|r.visits[k]| - 1]) == []
    decreases count - i
  {
    if i < count {
      var v := pass(edges, i);
      if v.progress.outcome.Pass? {
        var r := CorrectFrom(pass, count, i + 1, v.progress.edges, visits + [v.pre]);
        assert r == CorrectFrom(pass, count, i, edges, visits);
        if r.outcome.Pass? {
          assert Shrinks(inv, edges, v);
          CorrectFromPasses(inv, pass, count, i + 1, v.progress.edges, visits + [v.pre]);
          CorrectFromHead(pass, count, i, edges, visits);
          forall k | |visits| <= k < |r.visits| && r.visits[k] != []
            ensures OutEdges(r.edges, r.visits[k][|r.visits[k]| - 1]) == []
          {
            if k == |visits| {
              EmptiedStays(inv, pass, count, i, edges, visits);
            }
          }
        }
      }
    }
  }

  lemma {:induction false} CorrectFromOther(pass: ComponentPass, count: nat, i: nat, edges: seq<Edge>,
                                            visits: seq<seq<NodeId>>, n: NodeId)
    requires i <= count && PassKeepsOther(pass, count, n)
    ensures var r := CorrectFrom(pass, count, i, edges, visits);
      Unvisited(r.visits, |visits|, n) ==> OutEdges(r.edges, n) == OutEdges(edges, n)
    decreases count - i
  {
    if i < count {
      var v := pass(edges, i);
      CorrectFromHead(pass, count, i, edges, visits);
      assert KeepsOther(edges, v, n);
      if v.progress.outcome.Pass? {
        CorrectFromOther(pass, count, i + 1, v.progress.edges, visits + [v.pre], n);
      }
    }
  }

  /** Among the preorders of `visits` from position `from` on, `n` occurs only in
      preorder `k`, and there once, at position `j`. */
  ghost predicate OnlyAt(visits: seq<seq<NodeId>>, from: nat, n: NodeId, k: nat, j: nat) {
    && from <= k < |visits| && OnceAt(visits[k], n, j)
    && forall k' :: from <= k' < |visits| && k' != k ==> n !in visits[k']
  }

  lemma {:induction false} CorrectFromKeepsFirst(inv: seq<Edge> -> bool, pass: ComponentPass, count: nat,
                                                 i: nat, edges: seq<Edge>, visits: seq<seq<NodeId>>,
                                                 n: NodeId, k: nat, j: nat)
    requires i <= count && inv(edges)
    requires PassRemoves(inv, pass, count) && PassKeepsOther(pass, count, n) && PassKeepsFirst(inv, pass, count, n)
    ensures var r := CorrectFrom(pass, count, i, edges, visits);
      r.outcome.Pass? && OnlyAt(r.visits, |visits|, n, k, j) ==>
        OutEdges(r.edges, n) == KeptOut(edges, n, Successor(r.visits[k], j))
    decreases count - i
  {
    if i < count {
      var v := pass(edges, i);
      if v.progress.outcome.Pass? {
        var r := CorrectFrom(pass, count, i + 1, v.progress.edges, visits + [v.pre]);
        assert r == CorrectFrom(pass, count, i, edges, visits);
        if r.outcome.Pass? && OnlyAt(r.visits, |visits|, n, k, j) {
          CorrectFromHead(pass, count, i, edges, visits);
          if k == |visits| {
            assert Unvisited(r.visits, |visits| + 1, n);
            assert KeepsFirst(inv, edges, v, n);
            assert OutEdges(v.progress.edges, n) == KeptOut(edges, n, Successor(v.pre, j));
            CorrectFromOther(pass, count, i + 1, v.progress.edges, visits + [v.pre], n);
          } else {
            assert n !in v.pre;
            assert OnlyAt(r.visits, |visits| + 1, n, k, j);
            assert KeepsOther(edges, v, n);
            assert Shrinks(inv, edges, v);
            KeptOutLocal(v.progress.edges, edges, n, Successor(r.visits[k], j));
            CorrectFromKeepsFirst(inv, pass, count, i + 1, v.progress.edges, visits + [v.pre], n, k, j);
          }
        }
      }
    }
  }

  // ---------------------------------------------------------------------
  // The pass over the components of a graph has those properties

  /** The edges form a well-formed graph over these nodes. */
  ghost function EdgesOk(nodes: map<NodeId, NodeAttrs>): seq<Edge> -> bool {
    (e: seq<Edge>) => WellFormed(Graph(nodes, e))
  }

  lemma PassOfRemoves(nodes: map<NodeId, NodeAttrs>, comps: seq<seq<NodeId>>, dfs: Preorder)
    requires ValidComponents(nodes, comps)
    ensures PassRemoves(EdgesOk(nodes), PassOf(nodes, comps, dfs), |comps|)
  {
    forall e, k | 0 <= k < |comps| ensures Shrinks(EdgesOk(nodes), e, PassOf(nodes, comps, dfs)(e, k)) {
      InGraphAnyEdges(nodes, e, comps[k]);
      if WellFormed(Graph(nodes, e)) {
        PruneNodesRemoves(nodes, e, VisitComponent(nodes, comps, dfs, k, e).pre, 0);
      }
    }
  }

  lemma PassOfFailsAtEnd(nodes: map<NodeId, NodeAttrs>, comps: seq<seq<NodeId>>, dfs: Preorder)
    requires ValidComponents(nodes, comps)
    ensures PassFailsAtEnd(PassOf(nodes, comps, dfs), |comps|)
  {
    forall e, k | 0 <= k < |comps| ensures FailsAtEnd(PassOf(nodes, comps, dfs)(e, k)) {
      InGraphAnyEdges(nodes, e, comps[k]);
      PruneNodesFails(e, VisitComponent(nodes, comps, dfs, k, e).pre, 0);
    }
  }

  lemma PassOfEmptiesLast(nodes: map<NodeId, NodeAttrs>, comps: seq<seq<NodeId>>, dfs: Preorder)
    requires ValidComponents(nodes, comps)
    ensures PassEmptiesLast(PassOf(nodes, comps, dfs), |comps|)
  {
    forall e, k | 0 <= k < |comps| ensures EmptiesLast(PassOf(nodes, comps, dfs)(e, k)) {
      InGraphAnyEdges(nodes, e, comps[k]);
      var pre := VisitComponent(nodes, comps, dfs, k, e).pre;
      if pre != [] {
        PruneNodesPasses(e, pre, 0);
      }
    }
  }

  lemma PassOfKeepsOther(nodes: map<NodeId, NodeAttrs>, comps: seq<seq<NodeId>>, dfs: Preorder, n: NodeId)
    requires ValidComponents(nodes, comps)
    ensures PassKeepsOther(PassOf(nodes, comps, dfs), |comps|, n)
  {
    forall e, k | 0 <= k < |comps| ensures KeepsOther(e, PassOf(nodes, comps, dfs)(e, k), n) {
      InGraphAnyEdges(nodes, e, comps[k]);
      var pre := VisitComponent(nodes, comps, dfs, k, e).pre;
      if n !in pre {
        assert forall m :: 0 <= m < |pre| ==> pre[m] != n;
        PruneNodesOther(e, pre, 0, n);
      }
    }
  }

  lemma PassOfKeepsFirst(nodes: map<NodeId, NodeAttrs>, comps: seq<seq<NodeId>>, dfs: Preorder, n: NodeId)
    requires ValidComponents(nodes, comps)
    ensures PassKeepsFirst(EdgesOk(nodes), PassOf(nodes, comps, dfs), |comps|, n)
  {
    forall e, k | 0 <= k < |comps| ensures KeepsFirst(EdgesOk(nodes), e, PassOf(nodes, comps, dfs)(e, k), n) {
      InGraphAnyEdges(nodes, e, comps[k]);
      var pre := VisitComponent(nodes, comps, dfs, k, e).pre;
      forall j | WellFormed(Graph(nodes, e)) && OnceAt(pre, n, j)
        ensures PruneNodes(e, pre, 0).outcome.Pass? ==>
          OutEdges(PruneNodes(e, pre, 0).edges, n) == KeptOut(e, n, Successor(pre, j))
      {
        forall m | 0 <= m < |pre| && m != j ensures pre[m] != n {
          if m < j {
            assert pre[m] == pre[..j][m];
          } else {
            assert pre[m] == pre[j + 1..][m - j - 1];
          }
        }
        PruneNodesSelf(e, pre, 0, n, j);
      }
    }
  }

  // ---------------------------------------------------------------------
  // What `correct_toll_graph` guarantees

  /** It never adds an edge or a node, removes each edge at most once, and leaves a
      graph the library would accept. */
  lemma CorrectedOnlyRemoves(g: Graph, comps: seq<seq<NodeId>>, dfs: Preorder)
    requires WellFormed(g) && ValidComponents(g.nodes, comps)
    ensures var r := Corrected(g, comps, dfs);
      WellFormed(Graph(g.nodes, r.edges)) && multiset(r.edges) <= multiset(g.edges)
  {
    if |comps| > 1 {
      PassOfRemoves(g.nodes, comps, dfs);
      CorrectFromRemoves(EdgesOk(g.nodes), PassOf(g.nodes, comps, dfs), |comps|, 1, g.edges, []);
    }
  }

  /** It fails only with the `IndexError` of the last preorder walked, whose last node
      keeps an out-edge. */
  lemma CorrectedFails(g: Graph, comps: seq<seq<NodeId>>, dfs: Preorder)
    requires ValidComponents(g.nodes, comps)
    ensures var r := Corrected(g, comps, dfs);
      r.outcome.Fail? ==>
        && r.outcome.error == IndexOutOfRange && r.visits != []
        && var last := r.visits[|r.visits| - 1];
           |last| > 0 && |OutEdges(r.edges, last[|last| - 1])| > 0
  {
    if |comps| > 1 {
      PassOfFailsAtEnd(g.nodes, comps, dfs);
      CorrectFromFails(PassOf(g.nodes, comps, dfs), |comps|, 1, g.edges, []);
    }
  }

  /** When it succeeds, it walked every component but the first, and the last node of
      each preorder has no out-edge left. */
  lemma CorrectedPasses(g: Graph, comps: seq<seq<NodeId>>, dfs: Preorder)
    requires WellFormed(g) && ValidComponents(g.nodes, comps)
    ensures var r := Corrected(g, comps, dfs);
      r.outcome.Pass? ==>
        && |r.visits| == (if |comps| <= 1 then 0 else |comps| - 1)
        && forall k :: 0 <= k < |r.visits| && r.visits[k] != [] ==>
             OutEdges(r.edges, r.visits[k][|r.visits[k]| - 1]) == []
  {
    if |comps| > 1 {
      var pass := PassOf(g.nodes, comps, dfs);
      var r := CorrectFrom(pass, |comps|, 1, g.edges, []);
      assert r.outcome.Pass? ==> |r.visits| == |comps| - 1 by {
        CorrectFromVisits(pass, |comps|, 1, g.edges, []);
      }
      assert r.outcome.Pass? ==> forall k :: 0 <= k < |r.visits| && r.visits[k] != [] ==>
               OutEdges(r.edges, r.visits[k][|r.visits[k]| - 1]) == [] by {
        PassOfRemoves(g.nodes, comps, dfs);
        PassOfEmptiesLast(g.nodes, comps, dfs);
        assert g == Graph(g.nodes, g.edges);
        assert EdgesOk(g.nodes)(g.edges);
        var none: seq<seq<NodeId>> := [];
        CorrectFromPasses(EdgesOk(g.nodes), pass, |comps|, 1, g.edges, none);
        assert |none| == 0;
      }
    }
  }

  /** A node no preorder reaches keeps all its out-edges. */
  lemma CorrectedKeepsUnvisited(g: Graph, comps: seq<seq<NodeId>>, dfs: Preorder, n: NodeId)
    requires ValidComponents(g.nodes, comps)
    ensures var r := Corrected(g, comps, dfs);
      Unvisited(r.visits, 0, n) ==> OutEdges(r.edges, n) == OutEdges(g.edges, n)
  {
    if |comps| > 1 {
      PassOfKeepsOther(g.nodes, comps, dfs, n);
      CorrectFromOther(PassOf(g.nodes, comps, dfs), |comps|, 1, g.edges, [], n);
    }
  }

  /** On success, a node that occurs once in all the preorders, at position `j` of
      preorder `k`, keeps only its first original out-edge to the next node of that
      preorder (none if it had none), and nothing at all if it ends the preorder. */
  lemma CorrectedKeepsFirst(g: Graph, comps: seq<seq<NodeId>>, dfs: Preorder, n: NodeId, k: nat, j: nat)
    requires WellFormed(g) && ValidComponents(g.nodes, comps)
    ensures var r := Corrected(g, comps, dfs);
      r.outcome.Pass? && OnlyAt(r.visits, 0, n, k, j) ==>
        OutEdges(r.edges, n) == KeptOut(g.edges, n, Successor(r.visits[k], j))
  {
    if |comps| > 1 {
      var pass := PassOf(g.nodes, comps, dfs);
      PassOfRemoves(g.nodes, comps, dfs);
      PassOfKeepsOther(g.nodes, comps, dfs, n);
      PassOfKeepsFirst(g.nodes, comps, dfs, n);
      CorrectFromKeepsFirst(EdgesOk(g.nodes), pass, |comps|, 1, g.edges, [], n, k, j);
    }
  }
}
