/** `get_connected_components_dfs`, in its two versions: one depth-first preorder
    per weakly connected component, started either from the component's unique
    start node (in-degree 0, out-degree 1) or from its south-west-most node. */
module Components {
  import opened Results
  import opened Sequences
  import opened RoadGraph
  import opened NodeRanking

  /** `graph.in_degree(node) == 0 and graph.out_degree(node) == 1`. */
  function IsStartNode(g: Graph): NodeId -> bool {
    (n: NodeId) => InDegree(g, n) == 0 && OutDegree(g, n) == 1
  }

  /** `graph.in_degree(node) == 1 and graph.out_degree(node) == 0`. */
  function IsEndNode(g: Graph): NodeId -> bool {
    (n: NodeId) => InDegree(g, n) == 1 && OutDegree(g, n) == 0
  }

  /** The unique node of `comp` satisfying `p`; the `assert len(...) == 1` otherwise. */
  function TheOnly(comp: seq<NodeId>, p: NodeId -> bool): (r: Result<NodeId>)
    ensures r.Ok? <==> |Filter(comp, p)| == 1
    ensures r.Ok? ==> r.value in comp && p(r.value)
    ensures r.Err? ==> r.error == InvalidTopology
  {
    var matching := Filter(comp, p);
    if |matching| == 1 then
      assert matching[0] in matching;
      Ok(matching[0])
    else Err(InvalidTopology)
  }

  /** The node found is the only one of `comp` satisfying `p`. */
  lemma TheOnlyUnique(comp: seq<NodeId>, p: NodeId -> bool)
    ensures TheOnly(comp, p).Ok? ==> forall i :: 0 <= i < |comp| && p(comp[i]) ==> comp[i] == TheOnly(comp, p).value
  {
    var matching := Filter(comp, p);
    if |matching| == 1 {
      assert forall i :: 0 <= i < |comp| && p(comp[i]) ==> comp[i] in matching;
    }
  }

  // ---------------------------------------------------------------------
  // The version in src/helpers: the start node of each component

  /** The lists for `components[k..]`: the preorder `walk` from the one node of each
      component that satisfies `isStart`. */
  function OrdersFrom(comps: seq<seq<NodeId>>, isStart: NodeId -> bool, walk: NodeId -> seq<NodeId>, k: nat)
    : Result<seq<seq<NodeId>>>
    requires k <= |comps|
    decreases |comps| - k
  {
    if k == |comps| then Ok([])
    else
      match TheOnly(comps[k], isStart)
      case Err(e) => Err(e)
      case Ok(start) =>
        match OrdersFrom(comps, isStart, walk, k + 1)
        case Err(e) => Err(e)
        case Ok(rest) => Ok([walk(start)] + rest)
  }

  /** The preorder of `g` from a given node. */
  function WalkFrom(g: Graph, dfs: Preorder): NodeId -> seq<NodeId> {
    (n: NodeId) => dfs(g, n)
  }

  /** `dfs` stands for the preorder of `graph.to_undirected()`. */
  function StartOrders(g: Graph, comps: seq<seq<NodeId>>, dfs: Preorder): Result<seq<seq<NodeId>>> {
    OrdersFrom(comps, IsStartNode(g), WalkFrom(g, dfs), 0)
  }

  /** `result` so far, followed by what the rest of the loop appends. */
  function Then(result: seq<seq<NodeId>>, rest: Result<seq<seq<NodeId>>>): Result<seq<seq<NodeId>>> {
    match rest
    case Err(e) => Err(e)
    case Ok(tail) => Ok(result + tail)
  }

  /** Before the loop nothing is collected, and the rest of it makes the whole result. */
  lemma ThenNothing(rest: Result<seq<seq<NodeId>>>)
    ensures Then([], rest) == rest
  {
    if rest.Ok? {
      assert [] + rest.value == rest.value;
    }
  }

  /** After the loop nothing remains to be appended. */
  lemma ThenDone(result: seq<seq<NodeId>>)
    ensures Then(result, Ok([])) == Ok(result)
  {
    assert result + [] == result;
  }

  /** Collecting one more preorder moves it from what remains to what is collected. */
  lemma ThenAppend(result: seq<seq<NodeId>>, order: seq<NodeId>, rest: Result<seq<seq<NodeId>>>)
    ensures Then(result, Then([order], rest)) == Then(result + [order], rest)
  {
    if rest.Ok? {
      assert result + ([order] + rest.value) == (result + [order]) + rest.value;
    }
  }

  method GetConnectedComponentsDfs(g: Graph, comps: seq<seq<NodeId>>, dfs: Preorder)
    returns (r: Result<seq<seq<NodeId>>>)
    ensures r == StartOrders(g, comps, dfs)
  {
    var result: seq<seq<NodeId>> := [];
    var k := 0;
    ThenNothing(StartOrders(g, comps, dfs));
    while k < |comps|
      invariant k <= |comps|
      invariant StartOrders(g, comps, dfs) == Then(result, OrdersFrom(comps, IsStartNode(g), WalkFrom(g, dfs), k))
    {
      var startingNodes := Filter(comps[k], IsStartNode(g));
      if |startingNodes| != 1 {
        return Err(InvalidTopology);
      }
      var dfsNodes := dfs(g, startingNodes[0]);
      ThenAppend(result, dfsNodes, OrdersFrom(comps, IsStartNode(g), WalkFrom(g, dfs), k + 1));
      result := result + [dfsNodes];
      k := k + 1;
    }
    ThenDone(result);
    r := Ok(result);
  }

  /** It succeeds exactly when every component from `k` on has a unique start node. */
  lemma {:induction false} OrdersFromOk(comps: seq<seq<NodeId>>, isStart: NodeId -> bool,
                                        walk: NodeId -> seq<NodeId>, k: nat)
    requires k <= |comps|
    ensures var r := OrdersFrom(comps, isStart, walk, k);
      && (r.Ok? <==> forall m :: k <= m < |comps| ==> TheOnly(comps[m], isStart).Ok?)
      && (r.Err? ==> r.error == InvalidTopology)
    decreases |comps| - k
  {
    if k < |comps| {
      OrdersFromOk(comps, isStart, walk, k + 1);
    }
  }

  /** On success it holds the preorder from each component's start node, in component order. */
  lemma {:induction false} OrdersFromValue(comps: seq<seq<NodeId>>, isStart: NodeId -> bool,
                                           walk: NodeId -> seq<NodeId>, k: nat)
    requires k <= |comps|
    ensures var r := OrdersFrom(comps, isStart, walk, k);
      r.Ok? ==>
        && |r.value| == |comps| - k
        && forall m :: k <= m < |comps| ==>
             TheOnly(comps[m], isStart).Ok? && r.value[m - k] == walk(TheOnly(comps[m], isStart).value)
    decreases |comps| - k
  {
    if k < |comps| {
      OrdersFromValue(comps, isStart, walk, k + 1);
    }
  }

  /** It succeeds exactly when every component has a unique start node. */
  lemma StartOrdersOk(g: Graph, comps: seq<seq<NodeId>>, dfs: Preorder)
    ensures var r := StartOrders(g, comps, dfs);
      && (r.Ok? <==> forall m :: 0 <= m < |comps| ==> |Filter(comps[m], IsStartNode(g))| == 1)
      && (r.Err? ==> r.error == InvalidTopology)
  {
    OrdersFromOk(comps, IsStartNode(g), WalkFrom(g, dfs), 0);
  }

  /** On success it holds the preorder from each component's start node, in component order. */
  lemma StartOrdersValue(g: Graph, comps: seq<seq<NodeId>>, dfs: Preorder)
    ensures var r := StartOrders(g, comps, dfs);
      r.Ok? ==>
        && |r.value| == |comps|
        && forall m :: 0 <= m < |comps| ==>
             TheOnly(comps[m], IsStartNode(g)).Ok? && r.value[m] == dfs(g, TheOnly(comps[m], IsStartNode(g)).value)
  {
    var walk := WalkFrom(g, dfs);
    var r := OrdersFrom(comps, IsStartNode(g), walk, 0);
    OrdersFromValue(comps, IsStartNode(g), walk, 0);
    if r.Ok? {
      forall m | 0 <= m < |comps|
        ensures TheOnly(comps[m], IsStartNode(g)).Ok? && r.value[m] == dfs(g, TheOnly(comps[m], IsStartNode(g)).value)
      {
        assert r.value[m - 0] == walk(TheOnly(comps[m], IsStartNode(g)).value);
      }
    }
  }

  /** Each list begins with its component's start node whenever the preorder oracle
      begins with its source, as a depth-first preorder does. */
  lemma StartOrdersBeginAtStart(g: Graph, comps: seq<seq<NodeId>>, dfs: Preorder, m: nat)
    requires m < |comps|
    requires forall n :: n in comps[m] ==> dfs(g, n) != [] && dfs(g, n)[0] == n
    ensures var r := StartOrders(g, comps, dfs);
      r.Ok? ==> m < |r.value| && r.value[m] != [] && IsStartNode(g)(r.value[m][0]) && r.value[m][0] in comps[m]
  {
    StartOrdersValue(g, comps, dfs);
  }

  // ---------------------------------------------------------------------
  // The version at the top level: the south-west-most node of each component

  /** `dfs_nodes` from the `min` node of the component, restricted to the component. */
  function SouthWestOrder(g: Graph, comp: seq<NodeId>, dfs: Preorder): seq<NodeId>
    requires comp != [] && InGraph(g, comp)
  {
    Filter(dfs(g, MinNode(g, comp)), (n: NodeId) => n in comp)
  }

  /** `dfs` stands for the preorder of `G_undirected`. */
  method GetConnectedComponentsDfsFromSouthWest(g: Graph, comps: seq<seq<NodeId>>, dfs: Preorder)
    returns (result: seq<seq<NodeId>>)
    requires ValidComponents(g.nodes, comps)
    ensures |result| == |comps|
    ensures forall k :: 0 <= k < |comps| ==> result[k] == SouthWestOrder(g, comps[k], dfs)
  {
    result := [];
    var k := 0;
    while k < |comps|
      invariant k <= |comps| && |result| == k
      invariant forall m :: 0 <= m < k ==> result[m] == SouthWestOrder(g, comps[m], dfs)
    {
      InGraphAnyEdges(g.nodes, g.edges, comps[k]);
      var swNode := MinNode(g, comps[k]);
      var dfsNodes := dfs(g, swNode);
      dfsNodes := Filter(dfsNodes, (n: NodeId) => n in comps[k]);
      result := result + [dfsNodes];
      k := k + 1;
    }
  }

  /** Each list holds only nodes of its component, in the order of the preorder, and
      begins with the root whenever the preorder oracle begins with its source. */
  lemma SouthWestOrderSpec(g: Graph, comp: seq<NodeId>, dfs: Preorder)
    requires comp != [] && InGraph(g, comp)
    ensures var r := SouthWestOrder(g, comp, dfs);
      && (forall n :: n in r <==> n in comp && n in dfs(g, MinNode(g, comp)))
      && multiset(r) <= multiset(dfs(g, MinNode(g, comp)))
    ensures var root := MinNode(g, comp); var pre := dfs(g, root);
      pre != [] && pre[0] == root ==> SouthWestOrder(g, comp, dfs) != [] && SouthWestOrder(g, comp, dfs)[0] == root
  {
    var root := MinNode(g, comp);
    var pre := dfs(g, root);
    var p := (n: NodeId) => n in comp;
    FilterSubMultiset(pre, p);
    if pre != [] && pre[0] == root {
      FilterConcat([pre[0]], pre[1..], p);
      assert pre == [pre[0]] + pre[1..];
      assert Filter([pre[0]], p) == Filter([], p) + [pre[0]];
    }
  }
}
