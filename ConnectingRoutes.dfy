/** Joining the route graphs into one network: the connector edges between the toll
    route graph and every other route graph (`get_connecting_routes`), the relabelling
    of each route graph's nodes in depth-first order (`relabel_nodes_in_dfs_order`), and
    the union of all route graphs with the connectors added (`build_connected_graph`).
    The two copies of the Python module share this logic; one model serves both. */
module ConnectingRoutes {
  import opened Results
  import opened Sequences
  import opened RoadGraph

  // ---------------------------------------------------------------------
  // `get_connecting_routes`

  /** `ox.distance.nearest_nodes(G, X=x, Y=y)`, left uninterpreted: the node of `G` nearest
      to longitude `x` and latitude `y`, with no distance cap. */
  type NearestNode = (Graph, real, real) -> NodeId

  /** A connector edge `(u, v)`. */
  type Connector = (NodeId, NodeId)

  /** The inner iteration for toll node `t` and one other route graph: the toll node's `x`
      and `y`, the nearest node of `route`, its `x` and `y`, and the id guard. Where the
      nearest node's id is a toll-graph id or the toll node's id is a route-graph id, both
      coordinates must differ. A missing node or coordinate is a `KeyError`. */
  function NearestTo(toll: Graph, route: Graph, t: NodeId, nearest: NearestNode): (r: Result<NodeId>)
    ensures r.Ok? ==>
      && t in toll.nodes && toll.nodes[t].x.Some? && toll.nodes[t].y.Some?
      && r.value in route.nodes && r.value == nearest(route, toll.nodes[t].x.value, toll.nodes[t].y.value)
      && route.nodes[r.value].x.Some? && route.nodes[r.value].y.Some?
    ensures r.Err? ==> r.error == KeyNotFound || r.error == ConflictingNodeIds
  {
    if t !in toll.nodes || toll.nodes[t].x.None? || toll.nodes[t].y.None? then Err(KeyNotFound)
    else
      var tx, ty := toll.nodes[t].x.value, toll.nodes[t].y.value;
      var n := nearest(route, tx, ty);
      if n !in route.nodes || route.nodes[n].x.None? || route.nodes[n].y.None? then Err(KeyNotFound)
      else
        var nx, ny := route.nodes[n].x.value, route.nodes[n].y.value;
        if (n in toll.nodes || t in route.nodes) && !(nx != tx && ny != ty) then Err(ConflictingNodeIds)
        else Ok(n)
  }

  /** The guard fails exactly when the ids overlap and the two nodes share a coordinate. */
  lemma NearestToGuard(toll: Graph, route: Graph, t: NodeId, nearest: NearestNode)
    requires t in toll.nodes && toll.nodes[t].x.Some? && toll.nodes[t].y.Some?
    ensures var n := nearest(route, toll.nodes[t].x.value, toll.nodes[t].y.value);
      n in route.nodes && route.nodes[n].x.Some? && route.nodes[n].y.Some? ==>
        (NearestTo(toll, route, t, nearest) == Err(ConflictingNodeIds) <==>
           (n in toll.nodes || t in route.nodes)
           && (route.nodes[n].x.value == toll.nodes[t].x.value || route.nodes[n].y.value == toll.nodes[t].y.value))
  {
  }

  /** What the inner loop appends for toll node `t` over `route_graphs[1..j]`. */
  function ConnectorsFor(graphs: seq<Graph>, t: NodeId, nearest: NearestNode, j: nat): Result<seq<Connector>>
    requires 1 <= j <= |graphs|
  {
    if j == 1 then Ok([])
    else
      match ConnectorsFor(graphs, t, nearest, j - 1)
      case Err(e) => Err(e)
      case Ok(c) =>
        match NearestTo(graphs[0], graphs[j - 1], t, nearest)
        case Err(e) => Err(e)
        case Ok(n) => Ok(c + [(n, t), (t, n)])
  }

  /** `connecting_routes` after the first `i` toll nodes of `tollOrder`. */
  function ConnectorsUpTo(graphs: seq<Graph>, tollOrder: seq<NodeId>, nearest: NearestNode, i: nat)
    : Result<seq<Connector>>
    requires graphs != [] && i <= |tollOrder|
  {
    if i == 0 then Ok([])
    else
      match ConnectorsUpTo(graphs, tollOrder, nearest, i - 1)
      case Err(e) => Err(e)
      case Ok(prefix) =>
        match ConnectorsFor(graphs, tollOrder[i - 1], nearest, |graphs|)
        case Err(e) => Err(e)
        case Ok(c) => Ok(prefix + c)
  }

  /** The result of `get_connecting_routes`; `route_graphs[0]` of an empty list is an
      `IndexError`. */
  function ConnectingRoutes(graphs: seq<Graph>, tollOrder: seq<NodeId>, nearest: NearestNode): Result<seq<Connector>> {
    if graphs == [] then Err(IndexOutOfRange) else ConnectorsUpTo(graphs, tollOrder, nearest, |tollOrder|)
  }

  /** `tollOrder` is the order in which `toll_graph.nodes` iterates: each node once. */
  ghost predicate NodeOrder(g: Graph, order: seq<NodeId>) {
    && (forall n :: n in order <==> n in g.nodes)
    && (forall i, j :: 0 <= i < j < |order| ==> order[i] != order[j])
  }

  /** A sequence without repeats has as many distinct elements as it has positions. */
  lemma {:induction false} DistinctCount(order: seq<NodeId>)
    requires forall i, j :: 0 <= i < j < |order| ==> order[i] != order[j]
    ensures |set n | n in order| == |order|
    decreases |order|
  {
    if order != [] {
      var init, last := order[..|order| - 1], order[|order| - 1];
      DistinctCount(init);
      assert order == init + [last];
      assert (set n | n in order) == (set n | n in init) + {last};
      assert last !in (set n | n in init);
    }
  }

  /** A node order lists every node exactly once, so it has one position per node. */
  lemma NodeOrderLength(g: Graph, order: seq<NodeId>)
    requires NodeOrder(g, order)
    ensures |order| == |g.nodes|
  {
    DistinctCount(order);
    assert (set n | n in order) == g.nodes.Keys;
  }

  /** `tollOrder` stands for the iteration order of `route_graphs[0].nodes`, and `nearest`
      for the nearest-node query. */
  method GetConnectingRoutes(graphs: seq<Graph>, tollOrder: seq<NodeId>, nearest: NearestNode)
    returns (r: Result<seq<Connector>>)
    ensures r == ConnectingRoutes(graphs, tollOrder, nearest)
  {
    if graphs == [] {
      return Err(IndexOutOfRange);
    }
    var tollGraph := graphs[0];
    var connectingRoutes: seq<Connector> := [];
    var i := 0;
    while i < |tollOrder|
      invariant i <= |tollOrder|
      invariant ConnectorsUpTo(graphs, tollOrder, nearest, i) == Ok(connectingRoutes)
    {
      var tollNode := tollOrder[i];
      ghost var prefix := connectingRoutes;
      var j := 1;
      while j < |graphs|
        invariant 1 <= j <= |graphs|
        invariant ConnectorsUpTo(graphs, tollOrder, nearest, i) == Ok(prefix)
        invariant ConnectorsFor(graphs, tollNode, nearest, j).Ok?
        invariant connectingRoutes == prefix + ConnectorsFor(graphs, tollNode, nearest, j).value
      {
        var nearestNode := NearestTo(tollGraph, graphs[j], tollNode, nearest);
        if nearestNode.Err? {
          ForStaysErr(graphs, tollNode, nearest, j + 1, |graphs|);
          UpToStaysErr(graphs, tollOrder, nearest, i + 1, |tollOrder|);
          return Err(nearestNode.error);
        }
        connectingRoutes := connectingRoutes + [(nearestNode.value, tollNode)];
        connectingRoutes := connectingRoutes + [(tollNode, nearestNode.value)];
        j := j + 1;
      }
      i := i + 1;
    }
    r := Ok(connectingRoutes);
  }

  lemma {:induction false} ForStaysErr(graphs: seq<Graph>, t: NodeId, nearest: NearestNode, j: nat, n: nat)
    requires 1 <= j <= n <= |graphs| && ConnectorsFor(graphs, t, nearest, j).Err?
    ensures ConnectorsFor(graphs, t, nearest, n) == ConnectorsFor(graphs, t, nearest, j)
    decreases n - j
  {
    if j < n {
      ForStaysErr(graphs, t, nearest, j + 1, n);
    }
  }

  lemma {:induction false} UpToStaysErr(graphs: seq<Graph>, tollOrder: seq<NodeId>, nearest: NearestNode, i: nat, n: nat)
    requires graphs != [] && i <= n <= |tollOrder| && ConnectorsUpTo(graphs, tollOrder, nearest, i).Err?
    ensures ConnectorsUpTo(graphs, tollOrder, nearest, n) == ConnectorsUpTo(graphs, tollOrder, nearest, i)
    decreases n - i
  {
    if i < n {
      UpToStaysErr(graphs, tollOrder, nearest, i + 1, n);
    }
  }

  /** The toll node has both coordinates. */
  ghost predicate Positioned(g: Graph, t: NodeId) {
    t in g.nodes && g.nodes[t].x.Some? && g.nodes[t].y.Some?
  }

  /** Toll node `t` passes the guard against each of `route_graphs[1..j]`. */
  ghost predicate ConnectsTo(graphs: seq<Graph>, t: NodeId, nearest: NearestNode, j: nat)
    requires j <= |graphs|
  {
    forall k :: 1 <= k < j ==> NearestTo(graphs[0], graphs[k], t, nearest).Ok?
  }

  /** Connector `m` appended for toll node `t`: the pair for route graph `m / 2 + 1`, first
      towards the toll node, then away from it. */
  function ExpectedConnector(graphs: seq<Graph>, t: NodeId, nearest: NearestNode, m: nat): Connector
    requires m / 2 + 1 < |graphs| && Positioned(graphs[0], t)
  {
    var n := nearest(graphs[m / 2 + 1], graphs[0].nodes[t].x.value, graphs[0].nodes[t].y.value);
    if m % 2 == 0 then (n, t) else (t, n)
  }

  /** The inner loop succeeds exactly when the toll node passes against each route graph,
      and then appends two connectors per route graph, in route-graph order. */
  lemma {:induction false} ConnectorsForValue(graphs: seq<Graph>, t: NodeId, nearest: NearestNode, j: nat)
    requires 1 <= j <= |graphs|
    ensures ConnectorsFor(graphs, t, nearest, j).Ok? <==> ConnectsTo(graphs, t, nearest, j)
    ensures ConnectorsFor(graphs, t, nearest, j).Err? ==>
      ConnectorsFor(graphs, t, nearest, j).error == KeyNotFound || ConnectorsFor(graphs, t, nearest, j).error == ConflictingNodeIds
    ensures ConnectorsFor(graphs, t, nearest, j).Ok? ==>
      && |ConnectorsFor(graphs, t, nearest, j).value| == 2 * (j - 1)
      && (j > 1 ==> Positioned(graphs[0], t))
      && forall m :: 0 <= m < 2 * (j - 1) ==> ConnectorsFor(graphs, t, nearest, j).value[m] == ExpectedConnector(graphs, t, nearest, m)
    decreases j
  {
    if j > 1 {
      ConnectorsForValue(graphs, t, nearest, j - 1);
      var prev := ConnectorsFor(graphs, t, nearest, j - 1);
      var step := NearestTo(graphs[0], graphs[j - 1], t, nearest);
      if prev.Ok? && step.Ok? {
        var c := ConnectorsFor(graphs, t, nearest, j).value;
        assert c == prev.value + [(step.value, t), (t, step.value)];
        forall m | 0 <= m < 2 * (j - 1) ensures c[m] == ExpectedConnector(graphs, t, nearest, m) {
          if m < 2 * (j - 2) {
            assert c[m] == prev.value[m];
          }
        }
      }
    }
  }

  /** Toll nodes `order[..i]` pass against every other route graph. */
  ghost predicate AllConnect(graphs: seq<Graph>, order: seq<NodeId>, nearest: NearestNode, i: nat)
    requires i <= |order| && graphs != []
  {
    forall m :: 0 <= m < i ==> ConnectsTo(graphs, order[m], nearest, |graphs|)
  }

  /** The connectors for the first `i` toll nodes: `i` blocks, one per toll node in order,
      each the inner loop's connectors for that node. */
  lemma {:induction false} ConnectorsUpToValue(graphs: seq<Graph>, order: seq<NodeId>, nearest: NearestNode, i: nat)
    requires graphs != [] && i <= |order|
    ensures ConnectorsUpTo(graphs, order, nearest, i).Ok? <==> AllConnect(graphs, order, nearest, i)
    ensures ConnectorsUpTo(graphs, order, nearest, i).Err? ==>
      ConnectorsUpTo(graphs, order, nearest, i).error == KeyNotFound || ConnectorsUpTo(graphs, order, nearest, i).error == ConflictingNodeIds
    ensures ConnectorsUpTo(graphs, order, nearest, i).Ok? ==>
      && |ConnectorsUpTo(graphs, order, nearest, i).value| == i * (2 * (|graphs| - 1))
      && Paired(ConnectorsUpTo(graphs, order, nearest, i).value)
    decreases i
  {
    if i > 0 {
      ConnectorsUpToValue(graphs, order, nearest, i - 1);
      ConnectorsForValue(graphs, order[i - 1], nearest, |graphs|);
      var prev := ConnectorsUpTo(graphs, order, nearest, i - 1);
      var block := ConnectorsFor(graphs, order[i - 1], nearest, |graphs|);
      if prev.Ok? && block.Ok? {
        ConnectorsForPaired(graphs, order[i - 1], nearest, |graphs|);
        PairedConcat(prev.value, block.value);
        assert (i - 1) * (2 * (|graphs| - 1)) + 2 * (|graphs| - 1) == i * (2 * (|graphs| - 1));
      }
    }
  }

  /** Every connector at an even position is followed by its reverse. */
  ghost predicate Paired(r: seq<Connector>) {
    && |r| % 2 == 0
    && forall m :: 0 <= m < |r| && m % 2 == 0 ==> m + 1 < |r| && r[m + 1] == (r[m].1, r[m].0)
  }

  lemma PairedConcat(a: seq<Connector>, b: seq<Connector>)
    requires Paired(a) && Paired(b)
    ensures Paired(a + b)
  {
    var r := a + b;
    forall m | 0 <= m < |r| && m % 2 == 0 ensures m + 1 < |r| && r[m + 1] == (r[m].1, r[m].0) {
      if m < |a| {
        assert r[m] == a[m] && r[m + 1] == a[m + 1];
      } else {
        assert r[m] == b[m - |a|] && r[m + 1] == b[m - |a| + 1];
      }
    }
  }

  lemma {:induction false} ConnectorsForPaired(graphs: seq<Graph>, t: NodeId, nearest: NearestNode, j: nat)
    requires 1 <= j <= |graphs| && ConnectorsFor(graphs, t, nearest, j).Ok?
    ensures Paired(ConnectorsFor(graphs, t, nearest, j).value)
    decreases j
  {
    if j > 1 {
      ConnectorsForPaired(graphs, t, nearest, j - 1);
      var prev := ConnectorsFor(graphs, t, nearest, j - 1).value;
      var n := NearestTo(graphs[0], graphs[j - 1], t, nearest).value;
      PairedConcat(prev, [(n, t), (t, n)]);
    }
  }

  /** `get_connecting_routes` fails on an empty list; otherwise it succeeds exactly when
      every toll node passes against every other route graph, and fails with a `KeyError`
      or on the id guard when one does not. */
  lemma ConnectingRoutesFails(graphs: seq<Graph>, tollOrder: seq<NodeId>, nearest: NearestNode)
    ensures var r := ConnectingRoutes(graphs, tollOrder, nearest);
      && (graphs == [] ==> r == Err(IndexOutOfRange))
      && (graphs != [] ==>
            && (r.Ok? <==> forall i, k :: 0 <= i < |tollOrder| && 1 <= k < |graphs| ==> NearestTo(graphs[0], graphs[k], tollOrder[i], nearest).Ok?)
            && (r.Err? ==> r.error == KeyNotFound || r.error == ConflictingNodeIds))
  {
    if graphs != [] {
      ConnectorsUpToValue(graphs, tollOrder, nearest, |tollOrder|);
    }
  }

  /** On success it holds two connectors per toll node and other route graph, each at an
      even position followed by its reverse, so the list is closed under reversing a pair. */
  lemma ConnectingRoutesShape(graphs: seq<Graph>, tollOrder: seq<NodeId>, nearest: NearestNode)
    ensures var r := ConnectingRoutes(graphs, tollOrder, nearest);
      r.Ok? ==>
        && |r.value| == 2 * |tollOrder| * (|graphs| - 1)
        && Paired(r.value)
        && forall p :: p in r.value ==> (p.1, p.0) in r.value
  {
    var r := ConnectingRoutes(graphs, tollOrder, nearest);
    if r.Ok? {
      ConnectorsUpToValue(graphs, tollOrder, nearest, |tollOrder|);
      Twice(|tollOrder|, |graphs| - 1);
      PairedClosed(r.value);
    }
  }

  lemma Twice(a: int, b: int)
    ensures a * (2 * b) == 2 * a * b
  {
  }

  /** A paired list holds the reverse of each of its connectors. */
  lemma PairedClosed(r: seq<Connector>)
    requires Paired(r)
    ensures forall p :: p in r ==> (p.1, p.0) in r
  {
    forall p | p in r ensures (p.1, p.0) in r {
      var m :| 0 <= m < |r| && r[m] == p;
      if m % 2 == 0 {
        assert r[m + 1] == (p.1, p.0);
      } else {
        assert r[m - 1 + 1] == (r[m - 1].1, r[m - 1].0);
      }
    }
  }

  /** The number of connectors per toll node. */
  function BlockWidth(graphs: seq<Graph>): nat
    requires graphs != []
  {
    2 * (|graphs| - 1)
  }

  /** Block `m` of the connectors for the first `i` toll nodes is the inner loop's result for
      toll node `order[m]`. */
  lemma {:induction false} ConnectorsUpToBlocks(graphs: seq<Graph>, order: seq<NodeId>, nearest: NearestNode, i: nat)
    requires graphs != [] && i <= |order| && ConnectorsUpTo(graphs, order, nearest, i).Ok?
    ensures forall m :: 0 <= m < i ==>
      && ConnectorsFor(graphs, order[m], nearest, |graphs|).Ok?
      && (m + 1) * BlockWidth(graphs) <= |ConnectorsUpTo(graphs, order, nearest, i).value|
      && ConnectorsUpTo(graphs, order, nearest, i).value[m * BlockWidth(graphs)..(m + 1) * BlockWidth(graphs)]
         == ConnectorsFor(graphs, order[m], nearest, |graphs|).value
    decreases i
  {
    if i > 0 {
      ConnectorsUpToBlocks(graphs, order, nearest, i - 1);
      var w := BlockWidth(graphs);
      var prev := ConnectorsUpTo(graphs, order, nearest, i - 1).value;
      var block := ConnectorsFor(graphs, order[i - 1], nearest, |graphs|);
      assert block.Ok?;
      var r := ConnectorsUpTo(graphs, order, nearest, i).value;
      assert r == prev + block.value;
      assert |prev| == (i - 1) * w by {
        ConnectorsUpToValue(graphs, order, nearest, i - 1);
      }
      assert |block.value| == w by {
        ConnectorsForValue(graphs, order[i - 1], nearest, |graphs|);
      }
      forall m | 0 <= m < i
        ensures && ConnectorsFor(graphs, order[m], nearest, |graphs|).Ok?
                && (m + 1) * w <= |r|
                && r[m * w..(m + 1) * w] == ConnectorsFor(graphs, order[m], nearest, |graphs|).value
      {
        BlockOfConcat(prev, block.value, w, m, i - 1);
      }
    }
  }

  /** Block `m` of `prev + tail`, where `prev` has `n` blocks of width `w` and `tail` is one. */
  lemma BlockOfConcat<T>(prev: seq<T>, tail: seq<T>, w: nat, m: nat, n: nat)
    requires |prev| == n * w && |tail| == w && m <= n
    ensures (m + 1) * w <= |prev + tail|
    ensures m < n ==> (m + 1) * w <= |prev| && (prev + tail)[m * w..(m + 1) * w] == prev[m * w..(m + 1) * w]
    ensures m == n ==> (prev + tail)[m * w..(m + 1) * w] == tail
  {
    assert (m + 1) * w == m * w + w;
    assert (n + 1) * w == n * w + w;
    if m < n {
      assert (m + 1) * w <= n * w;
    }
  }

  /** On success, block `m` of the list holds the two connectors, towards and away from
      toll node `tollOrder[m]`, for each other route graph in order, the nearest node being
      drawn from that graph with no distance cap. */
  lemma ConnectingRoutesValue(graphs: seq<Graph>, tollOrder: seq<NodeId>, nearest: NearestNode, m: nat, k: nat)
    requires m < |tollOrder| && k < 2 * (|graphs| - 1)
    ensures var r := ConnectingRoutes(graphs, tollOrder, nearest);
      r.Ok? ==>
        && Positioned(graphs[0], tollOrder[m])
        && m * BlockWidth(graphs) + k < |r.value|
        && r.value[m * BlockWidth(graphs) + k] == ExpectedConnector(graphs, tollOrder[m], nearest, k)
  {
    var r := ConnectingRoutes(graphs, tollOrder, nearest);
    if r.Ok? {
      ConnectorsUpToBlocks(graphs, tollOrder, nearest, |tollOrder|);
      var block := ConnectorsFor(graphs, tollOrder[m], nearest, |graphs|);
      ConnectorsForValue(graphs, tollOrder[m], nearest, |graphs|);
      BlockIndex(r.value, block.value, m, BlockWidth(graphs), k);
    }
  }

  lemma BlockIndex(r: seq<Connector>, block: seq<Connector>, m: nat, w: nat, k: nat)
    requires (m + 1) * w <= |r| && k < w && r[m * w..(m + 1) * w] == block
    ensures m * w + k < |r| && r[m * w + k] == block[k]
  {
    assert (m + 1) * w == m * w + w;
  }

  // ---------------------------------------------------------------------
  // `relabel_nodes_in_dfs_order`

  /** `10**6`: the new ids of route graph `i` start at `i * 10**6`. */
  const IdBlock: nat := 1000000

  /** `{old: i * 10**6 + j for j, old in enumerate(pre)}`; a node repeated in `pre` keeps
      the id of its last position. */
  function IdMap(pre: seq<NodeId>, i: nat): map<NodeId, NodeId>
    decreases |pre|
  {
    if pre == [] then map[]
    else IdMap(pre[..|pre| - 1], i)[pre[|pre| - 1] := i * IdBlock + |pre| - 1]
  }

  /** Its keys are the nodes of the preorder, and its values lie in
      `[i * 10**6, i * 10**6 + |pre|)`. */
  lemma {:induction false} IdMapKeysAndRange(pre: seq<NodeId>, i: nat)
    ensures forall n :: n in IdMap(pre, i) <==> n in pre
    ensures forall n :: n in IdMap(pre, i) ==> i * IdBlock <= IdMap(pre, i)[n] < i * IdBlock + |pre|
    decreases |pre|
  {
    if pre != [] {
      IdMapKeysAndRange(pre[..|pre| - 1], i);
      assert pre == pre[..|pre| - 1] + [pre[|pre| - 1]];
    }
  }

  /** No two nodes get the same new id, even where the preorder repeats a node. */
  lemma {:induction false} IdMapInjective(pre: seq<NodeId>, i: nat)
    ensures forall a, b :: a in IdMap(pre, i) && b in IdMap(pre, i) && a != b ==> IdMap(pre, i)[a] != IdMap(pre, i)[b]
    decreases |pre|
  {
    if pre != [] {
      IdMapInjective(pre[..|pre| - 1], i);
      IdMapKeysAndRange(pre[..|pre| - 1], i);
    }
  }

  /** In a preorder without repeats, the node at position `j` gets the id `i * 10**6 + j`. */
  lemma {:induction false} IdMapPosition(pre: seq<NodeId>, i: nat, j: nat)
    requires j < |pre|
    requires forall a, b :: 0 <= a < b < |pre| ==> pre[a] != pre[b]
    ensures pre[j] in IdMap(pre, i) && IdMap(pre, i)[pre[j]] == i * IdBlock + j
    decreases |pre|
  {
    if j < |pre| - 1 {
      IdMapPosition(pre[..|pre| - 1], i, j);
    }
  }

  /** The new ids of two different route graphs never meet while each preorder has at
      most `10**6` nodes. */
  lemma IdMapsDisjoint(pre: seq<NodeId>, i: nat, pre': seq<NodeId>, i': nat, a: NodeId, b: NodeId)
    requires i != i' && |pre| <= IdBlock && |pre'| <= IdBlock
    requires a in IdMap(pre, i) && b in IdMap(pre', i')
    ensures IdMap(pre, i)[a] != IdMap(pre', i')[b]
  {
    IdMapKeysAndRange(pre, i);
    IdMapKeysAndRange(pre', i');
  }

  /** `[node for node in route_graph.nodes if route_graph.in_degree(node) == 0]`, as a set:
      the nodes of a graph are distinct. */
  function StartNodes(g: Graph): set<NodeId> {
    set n | n in g.nodes && InDegree(g, n) == 0
  }

  lemma SingletonUnique(s: set<NodeId>)
    requires |s| == 1
    ensures forall a, b :: a in s && b in s ==> a == b
  {
    forall a, b | a in s && b in s ensures a == b {
      var rest := s - {a};
      assert |rest| == 0;
      assert rest == {};
    }
  }

  /** One iteration for route graph `i`: the `assert` that exactly one node has no in-edges,
      the depth-first preorder `dfs` from that node, the id mapping, and the relabelled graph
      with the mapping. `nx.relabel_nodes` refuses a cyclic mapping before it moves any node;
      a mapping that would give two nodes one id is an error here. Here `dfs` stands for
      the preorder of the directed route graph itself, not of an undirected view. */
  ghost function RelabelStep(g: Graph, dfs: Preorder, i: nat): Result<(Graph, map<NodeId, NodeId>)> {
    var starts := StartNodes(g);
    if |starts| != 1 then Err(InvalidTopology)
    else
      SomeNode(starts);
      var s :| s in starts;
      var mapping := IdMap(dfs(g, s), i);
      if RenamingCyclic(mapping) then Err(Unresolvable)
      else if !RenamingInjective(g, mapping) then Err(LabelCollision)
      else Ok((Relabeled(g, mapping), mapping))
  }

  /** It fails exactly when the graph has no unique node without in-edges, when the mapping
      from that node's preorder is cyclic, or when it would merge two nodes; otherwise it
      relabels by that mapping. */
  lemma RelabelStepSpec(g: Graph, dfs: Preorder, i: nat)
    ensures |StartNodes(g)| != 1 ==> RelabelStep(g, dfs, i) == Err(InvalidTopology)
    ensures forall s :: StartNodes(g) == {s} && RenamingCyclic(IdMap(dfs(g, s), i)) ==>
      RelabelStep(g, dfs, i) == Err(Unresolvable)
    ensures forall s :: StartNodes(g) == {s} && !RenamingCyclic(IdMap(dfs(g, s), i)) && !RenamingInjective(g, IdMap(dfs(g, s), i)) ==>
      RelabelStep(g, dfs, i) == Err(LabelCollision)
    ensures RelabelStep(g, dfs, i).Err? ==>
      (RelabelStep(g, dfs, i).error == InvalidTopology <==> |StartNodes(g)| != 1)
    ensures RelabelStep(g, dfs, i).Err? ==>
      (RelabelStep(g, dfs, i).error == Unresolvable <==>
        exists s :: StartNodes(g) == {s} && RenamingCyclic(IdMap(dfs(g, s), i)))
    ensures RelabelStep(g, dfs, i).Err? ==>
      (RelabelStep(g, dfs, i).error == LabelCollision <==>
        exists s :: StartNodes(g) == {s} && !RenamingCyclic(IdMap(dfs(g, s), i)) && !RenamingInjective(g, IdMap(dfs(g, s), i)))
    ensures forall s :: StartNodes(g) == {s} && !RenamingCyclic(IdMap(dfs(g, s), i)) && RenamingInjective(g, IdMap(dfs(g, s), i)) ==>
      RelabelStep(g, dfs, i) == Ok((Relabeled(g, IdMap(dfs(g, s), i)), IdMap(dfs(g, s), i)))
  {
    if |StartNodes(g)| == 1 {
      SingletonUnique(StartNodes(g));
    }
  }

  /** In a preorder without repeats, the node at position `j` gets the id `i * 10**6 + j`:
      the relabelling numbers the nodes in depth-first order. */
  lemma IdMapPositions(pre: seq<NodeId>, i: nat)
    requires forall a, b :: 0 <= a < b < |pre| ==> pre[a] != pre[b]
    ensures forall j :: 0 <= j < |pre| ==> pre[j] in IdMap(pre, i) && IdMap(pre, i)[pre[j]] == i * IdBlock + j
  {
    forall j | 0 <= j < |pre| ensures pre[j] in IdMap(pre, i) && IdMap(pre, i)[pre[j]] == i * IdBlock + j {
      IdMapPosition(pre, i, j);
    }
  }

  /** When the preorder from the start node reaches every node, the mapping merges no
      nodes, and the iteration fails only on a cyclic mapping; the relabelled graph is well
      formed and every new id lies in graph `i`'s block (`RelabeledNodes` gives each node's
      attributes under its new id). */
  lemma RelabelStepCovers(g: Graph, dfs: Preorder, i: nat, s: NodeId)
    requires WellFormed(g) && StartNodes(g) == {s}
    requires forall n :: n in g.nodes ==> n in dfs(g, s)
    ensures RenamingInjective(g, IdMap(dfs(g, s), i))
    ensures RelabelStep(g, dfs, i) ==
      if RenamingCyclic(IdMap(dfs(g, s), i)) then Err(Unresolvable)
      else Ok((Relabeled(g, IdMap(dfs(g, s), i)), IdMap(dfs(g, s), i)))
    ensures WellFormed(Relabeled(g, IdMap(dfs(g, s), i)))
    ensures forall n :: n in Relabeled(g, IdMap(dfs(g, s), i)).nodes ==> i * IdBlock <= n < i * IdBlock + |dfs(g, s)|
  {
    var mapping := IdMap(dfs(g, s), i);
    IdMapKeysAndRange(dfs(g, s), i);
    IdMapInjective(dfs(g, s), i);
    assert RenamingInjective(g, mapping);
    RelabelStepSpec(g, dfs, i);
    RelabeledNodes(g, mapping);
    RelabeledWellFormed(g, mapping);
  }

  /** A preorder none of whose nodes already carries an id of graph `i`'s block gives a
      mapping whose old and new labels do not overlap, so it is never cyclic. */
  lemma FreshIdMapAcyclic(pre: seq<NodeId>, i: nat)
    requires forall n :: n in pre ==> !(i * IdBlock <= n < i * IdBlock + |pre|)
    ensures !RenamingCyclic(IdMap(pre, i))
  {
    var m := IdMap(pre, i);
    IdMapKeysAndRange(pre, i);
    if RenamingCyclic(m) {
      CyclicOverlaps(m);
      assert false;
    }
  }

  /** Two nodes with one edge from the start node `1` to node `0`: the preorder `[1, 0]` of
      graph `0` maps `1` to `0` and `0` to `1`, a swap, and the iteration fails. */
  lemma SwapMappingUnresolvable(dfs: Preorder)
    requires dfs(Graph(map[0 := NoNodeAttrs, 1 := NoNodeAttrs], [Edge(1, 0, 0, NoEdgeAttrs)]), 1) == [1, 0]
    ensures RelabelStep(Graph(map[0 := NoNodeAttrs, 1 := NoNodeAttrs], [Edge(1, 0, 0, NoEdgeAttrs)]), dfs, 0) == Err(Unresolvable)
  {
    var g := Graph(map[0 := NoNodeAttrs, 1 := NoNodeAttrs], [Edge(1, 0, 0, NoEdgeAttrs)]);
    assert InEdges(g.edges, 1) == [];
    assert Edge(1, 0, 0, NoEdgeAttrs) in InEdges(g.edges, 0);
    assert StartNodes(g) == {1};
    var m := IdMap([1, 0], 0);
    assert [1, 0][..1] == [1];
    assert [1][..0] == [];
    assert m == map[1 := 0, 0 := 1];
    assert Follow(m, 1, 2) == Some(1);
    assert RenamingCyclic(m);
    RelabelStepSpec(g, dfs, 0);
  }

  /** An iteration as a function of the graph and its position. The loop below is proved
      against such a function, with `RelabelStep` supplied only at the top. */
  type Relabelling = (Graph, nat) -> Result<(Graph, map<NodeId, NodeId>)>

  ghost predicate IsRelabelStep(step: Relabelling, dfs: Preorder) {
    forall g: Graph, i: nat {:trigger RelabelStep(g, dfs, i)} :: step(g, i) == RelabelStep(g, dfs, i)
  }

  /** `relabel_nodes_in_dfs_order`: each route graph in turn, in place, collecting the id
      mappings (the module's `id_maps`). The loop stops at the first failing graph, which is
      left as it was, as are the graphs after it. The route graphs are distinct objects, and
      `dfs` is the directed preorder, as in `RelabelStep`. */
  method RelabelNodesInDfsOrder(graphs: seq<MultiDiGraph>, dfs: Preorder)
    returns (idMaps: seq<map<NodeId, NodeId>>, outcome: Outcome)
    requires forall k :: 0 <= k < |graphs| ==> graphs[k].Valid()
    requires forall k, l :: 0 <= k < l < |graphs| ==> graphs[k] != graphs[l]
    modifies set k | 0 <= k < |graphs| :: graphs[k]
    ensures forall k :: 0 <= k < |graphs| ==> graphs[k].Valid()
    ensures |idMaps| <= |graphs| && (outcome.Pass? <==> |idMaps| == |graphs|)
    ensures forall k :: 0 <= k < |idMaps| ==>
      RelabelStep(old(graphs[k].Snapshot()), dfs, k) == Ok((graphs[k].Snapshot(), idMaps[k]))
    ensures outcome.Fail? ==> RelabelStep(old(graphs[|idMaps|].Snapshot()), dfs, |idMaps|) == Err(outcome.error)
    ensures forall k :: |idMaps| <= k < |graphs| ==> graphs[k].Snapshot() == old(graphs[k].Snapshot())
  {
    idMaps, outcome := RelabelEach(graphs, dfs, (g: Graph, i: nat) => RelabelStep(g, dfs, i));
  }

  method RelabelEach(graphs: seq<MultiDiGraph>, dfs: Preorder, ghost step: Relabelling)
    returns (idMaps: seq<map<NodeId, NodeId>>, outcome: Outcome)
    requires IsRelabelStep(step, dfs)
    requires forall k :: 0 <= k < |graphs| ==> graphs[k].Valid()
    requires forall k, l :: 0 <= k < l < |graphs| ==> graphs[k] != graphs[l]
    modifies set k | 0 <= k < |graphs| :: graphs[k]
    ensures forall k :: 0 <= k < |graphs| ==> graphs[k].Valid()
    ensures |idMaps| <= |graphs| && (outcome.Pass? <==> |idMaps| == |graphs|)
    ensures forall k :: 0 <= k < |idMaps| ==> step(old(graphs[k].Snapshot()), k) == Ok((graphs[k].Snapshot(), idMaps[k]))
    ensures outcome.Fail? ==> step(old(graphs[|idMaps|].Snapshot()), |idMaps|) == Err(outcome.error)
    ensures forall k :: |idMaps| <= k < |graphs| ==> graphs[k].Snapshot() == old(graphs[k].Snapshot())
  {
    idMaps := [];
    var i := 0;
    while i < |graphs|
      invariant i <= |graphs| && |idMaps| == i
      invariant forall k :: 0 <= k < |graphs| ==> graphs[k].Valid()
      invariant forall k :: 0 <= k < i ==> step(old(graphs[k].Snapshot()), k) == Ok((graphs[k].Snapshot(), idMaps[k]))
      invariant forall k :: i <= k < |graphs| ==> graphs[k].Snapshot() == old(graphs[k].Snapshot())
    {
      label before:
      var r := RelabelGraph(graphs[i], dfs, i, step);
      forall k | 0 <= k < |graphs| && k != i
        ensures graphs[k].Valid() && graphs[k].Snapshot() == old@before(graphs[k].Snapshot())
      {
        assert graphs[k] != graphs[i];
      }
      if r.Err? {
        return idMaps, Fail(r.error);
      }
      idMaps := idMaps + [r.value];
      i := i + 1;
    }
    outcome := Pass;
  }

  /** One iteration of the loop, relabelling the route graph object in place. */
  method RelabelGraph(g: MultiDiGraph, dfs: Preorder, i: nat, ghost step: Relabelling)
    returns (r: Result<map<NodeId, NodeId>>)
    requires g.Valid() && IsRelabelStep(step, dfs)
    modifies g
    ensures g.Valid()
    ensures r.Err? ==> g.Snapshot() == old(g.Snapshot()) && step(old(g.Snapshot()), i) == Err(r.error)
    ensures r.Ok? ==> step(old(g.Snapshot()), i) == Ok((g.Snapshot(), r.value))
  {
    var graph := g.Snapshot();
    assert step(graph, i) == RelabelStep(graph, dfs, i);
    var starts := StartNodes(graph);
    if |starts| != 1 {
      return Err(InvalidTopology);
    }
    SomeNode(starts);
    var s :| s in starts;
    SingletonUnique(starts);
    var mapping := IdMap(dfs(graph, s), i);
    if !RenamingCyclic(mapping) && !RenamingInjective(graph, mapping) {
      return Err(LabelCollision);
    }
    var outcome := g.Relabel(mapping);
    if outcome.Fail? {
      return Err(outcome.error);
    }
    r := Ok(mapping);
  }

  // ---------------------------------------------------------------------
  // `build_connected_graph`

  /** `nx.compose_all(route_graphs[..k])`: each graph added in turn to an empty graph. */
  function ComposeUpTo(graphs: seq<Graph>, k: nat): Graph
    requires k <= |graphs|
  {
    if k == 0 then Graph(map[], []) else Compose(ComposeUpTo(graphs, k - 1), graphs[k - 1])
  }

  /** `nx.compose_all`, which refuses an empty list. */
  function ComposeAll(graphs: seq<Graph>): Result<Graph> {
    if graphs == [] then Err(NothingToCompose) else Ok(ComposeUpTo(graphs, |graphs|))
  }

  /** `full_graph.add_edge(u, v)` for each connector in turn. */
  function WithConnectors(g: Graph, connectors: seq<Connector>): Graph
    decreases |connectors|
  {
    if connectors == [] then g
    else
      var last := connectors[|connectors| - 1];
      WithEdge(WithConnectors(g, connectors[..|connectors| - 1]), last.0, last.1, NoEdgeAttrs)
  }

  /** The result of `build_connected_graph`: the connectors of `get_connecting_routes`, and
      the union of the route graphs with one new edge per connector. */
  function ConnectedGraph(graphs: seq<Graph>, tollOrder: seq<NodeId>, nearest: NearestNode)
    : Result<(Graph, seq<Connector>)>
  {
    match ConnectingRoutes(graphs, tollOrder, nearest)
    case Err(e) => Err(e)
    case Ok(connectors) =>
      match ComposeAll(graphs)
      case Err(e) => Err(e)
      case Ok(composed) => Ok((WithConnectors(composed, connectors), connectors))
  }

  /** `tollOrder` stands for the iteration order of `route_graphs[0].nodes`, and `nearest`
      for the nearest-node query; `origin` and `destination` are unused. */
  method BuildConnectedGraph(graphs: seq<Graph>, tollOrder: seq<NodeId>, nearest: NearestNode)
    returns (r: Result<(MultiDiGraph, seq<Connector>)>)
    ensures r.Err? ==> ConnectedGraph(graphs, tollOrder, nearest) == Err(r.error)
    ensures r.Ok? ==>
      && fresh(r.value.0) && r.value.0.Valid()
      && ConnectedGraph(graphs, tollOrder, nearest) == Ok((r.value.0.Snapshot(), r.value.1))
  {
    var routes := GetConnectingRoutes(graphs, tollOrder, nearest);
    if routes.Err? {
      return Err(routes.error);
    }
    var composed := ComposeUpTo(graphs, |graphs|);
    assert WellFormed(composed) by {
      ComposeUpToSpec(graphs, |graphs|);
    }
    var full := new MultiDiGraph.Copy(composed);
    AddConnectorEdges(full, routes.value);
    r := Ok((full, routes.value));
  }

  /** `for u, v in connecting_routes: full_graph.add_edge(u, v)`. */
  method AddConnectorEdges(full: MultiDiGraph, connectors: seq<Connector>)
    requires full.Valid()
    modifies full
    ensures full.Valid()
    ensures full.Snapshot() == WithConnectors(old(full.Snapshot()), connectors)
  {
    var k := 0;
    while k < |connectors|
      invariant k <= |connectors| && full.Valid()
      invariant full.Snapshot() == WithConnectors(old(full.Snapshot()), connectors[..k])
    {
      assert connectors[..k + 1][..k] == connectors[..k];
      var _ := full.AddEdge(connectors[k].0, connectors[k].1, NoEdgeAttrs);
      k := k + 1;
    }
    assert connectors[..|connectors|] == connectors;
  }

  /** The union is well formed and holds every node of the graphs. */
  lemma {:induction false} ComposeUpToSpec(graphs: seq<Graph>, k: nat)
    requires k <= |graphs|
    ensures WellFormed(ComposeUpTo(graphs, k))
    ensures forall j, n :: 0 <= j < k && n in graphs[j].nodes ==> n in ComposeUpTo(graphs, k).nodes
    decreases k
  {
    if k > 0 {
      ComposeUpToSpec(graphs, k - 1);
      var prev := ComposeUpTo(graphs, k - 1);
      var base := Graph(WithNodesOf(prev.nodes, graphs[k - 1].nodes), prev.edges);
      assert WellFormed(base);
      WithKeyedEdgesWellFormed(base, graphs[k - 1].edges);
    }
  }

  /** The union of well-formed graphs holds no node that none of them has. */
  lemma {:induction false} ComposeUpToOnlyNodes(graphs: seq<Graph>, k: nat)
    requires k <= |graphs| && forall j :: 0 <= j < k ==> WellFormed(graphs[j])
    ensures forall n :: n in ComposeUpTo(graphs, k).nodes ==> exists j :: 0 <= j < k && n in graphs[j].nodes
    decreases k
  {
    if k > 0 {
      ComposeUpToOnlyNodes(graphs, k - 1);
      var prev := ComposeUpTo(graphs, k - 1);
      var g := graphs[k - 1];
      var base := Graph(WithNodesOf(prev.nodes, g.nodes), prev.edges);
      WithKeyedEdgesOnlyNodes(base, g.edges);
      forall n | n in ComposeUpTo(graphs, k).nodes ensures exists j :: 0 <= j < k && n in graphs[j].nodes {
        if n in prev.nodes {
          var j :| 0 <= j < k - 1 && n in graphs[j].nodes;
        } else {
          assert WellFormed(g);
          assert n in graphs[k - 1].nodes;
        }
      }
    }
  }

  /** The union occupies exactly the edge slots that the graphs occupy. */
  lemma {:induction false} ComposeUpToSlots(graphs: seq<Graph>, k: nat)
    requires k <= |graphs|
    ensures forall s :: s in Slots(ComposeUpTo(graphs, k).edges) <==> exists j :: 0 <= j < k && s in Slots(graphs[j].edges)
    decreases k
  {
    if k > 0 {
      ComposeUpToSlots(graphs, k - 1);
      var prev := ComposeUpTo(graphs, k - 1);
      var g := graphs[k - 1];
      WithKeyedEdgesSlots(Graph(WithNodesOf(prev.nodes, g.nodes), prev.edges), g.edges);
      forall s ensures s in Slots(ComposeUpTo(graphs, k).edges) <==> exists j :: 0 <= j < k && s in Slots(graphs[j].edges) {
        if s in Slots(prev.edges) {
          var j :| 0 <= j < k - 1 && s in Slots(graphs[j].edges);
        }
        if exists j :: 0 <= j < k && s in Slots(graphs[j].edges) {
          var j :| 0 <= j < k && s in Slots(graphs[j].edges);
          if j < k - 1 {
            assert s in Slots(prev.edges);
          }
        }
      }
    }
  }

  /** The edges of `route_graphs[..k]`, one graph's after another's. */
  function EdgesUpTo(graphs: seq<Graph>, k: nat): seq<Edge>
    requires k <= |graphs|
  {
    if k == 0 then [] else EdgesUpTo(graphs, k - 1) + graphs[k - 1].edges
  }

  /** No two of the first `k` graphs share a node id, as after relabelling. */
  ghost predicate DisjointIds(graphs: seq<Graph>, k: nat)
    requires k <= |graphs|
  {
    forall i, j, n :: 0 <= i < k && 0 <= j < k && i != j && n in graphs[i].nodes ==> n !in graphs[j].nodes
  }

  /** For well-formed graphs with disjoint ids the union holds every edge list, one after
      another, with no edge merged. */
  lemma {:induction false} ComposeUpToDisjoint(graphs: seq<Graph>, k: nat)
    requires k <= |graphs| && DisjointIds(graphs, k)
    requires forall j :: 0 <= j < k ==> WellFormed(graphs[j])
    ensures ComposeUpTo(graphs, k).edges == EdgesUpTo(graphs, k)
    decreases k
  {
    if k > 0 {
      var prev := ComposeUpTo(graphs, k - 1);
      var g := graphs[k - 1];
      var base := Graph(WithNodesOf(prev.nodes, g.nodes), prev.edges);
      assert prev.edges == EdgesUpTo(graphs, k - 1) by {
        ComposeUpToDisjoint(graphs, k - 1);
      }
      assert Slots(base.edges) !! Slots(g.edges) by {
        NextSlotsFree(graphs, k - 1);
      }
      assert WithKeyedEdges(base, g.edges).edges == base.edges + g.edges by {
        assert WellFormed(g);
        WithKeyedEdgesFresh(base, g.edges);
      }
      assert ComposeUpTo(graphs, k) == WithKeyedEdges(base, g.edges);
    }
  }

  /** With disjoint ids, graph `k`'s edges occupy slots that the union of the graphs before
      it leaves free. */
  lemma NextSlotsFree(graphs: seq<Graph>, k: nat)
    requires k < |graphs| && DisjointIds(graphs, k + 1)
    requires forall j :: 0 <= j <= k ==> WellFormed(graphs[j])
    ensures Slots(ComposeUpTo(graphs, k).edges) !! Slots(graphs[k].edges)
  {
    ComposeUpToSlots(graphs, k);
    forall j, s | 0 <= j < k && s in Slots(graphs[j].edges) ensures s !in Slots(graphs[k].edges) {
      var f :| f in graphs[j].edges && SlotOf(f) == s;
      assert f.u in graphs[j].nodes && f.u !in graphs[k].nodes;
    }
  }

  /** For well-formed graphs with disjoint ids the union keeps each node's attributes. */
  lemma {:induction false} ComposeUpToDisjointNodes(graphs: seq<Graph>, k: nat)
    requires k <= |graphs| && DisjointIds(graphs, k)
    requires forall j :: 0 <= j < k ==> WellFormed(graphs[j])
    ensures forall j, n :: 0 <= j < k && n in graphs[j].nodes ==>
      n in ComposeUpTo(graphs, k).nodes && ComposeUpTo(graphs, k).nodes[n] == graphs[j].nodes[n]
    decreases k
  {
    if k > 0 {
      ComposeUpToDisjointNodes(graphs, k - 1);
      ComposeUpToOnlyNodes(graphs, k - 1);
      var prev := ComposeUpTo(graphs, k - 1);
      var g := graphs[k - 1];
      var base := Graph(WithNodesOf(prev.nodes, g.nodes), prev.edges);
      WithKeyedEdgesWellFormed(base, g.edges);
      forall j, n | 0 <= j < k && n in graphs[j].nodes
        ensures n in ComposeUpTo(graphs, k).nodes && ComposeUpTo(graphs, k).nodes[n] == graphs[j].nodes[n]
      {
        if j == k - 1 {
          assert forall i :: 0 <= i < k - 1 ==> n !in graphs[i].nodes;
        } else {
          assert n !in g.nodes;
        }
      }
    }
  }

  /** Adding the connectors keeps the graph well formed and its nodes when their ends are
      nodes already, and keeps the edges there were. */
  lemma {:induction false} WithConnectorsKeeps(g: Graph, c: seq<Connector>)
    requires WellFormed(g)
    requires forall p :: p in c ==> p.0 in g.nodes && p.1 in g.nodes
    ensures WellFormed(WithConnectors(g, c))
    ensures WithConnectors(g, c).nodes == g.nodes
    ensures |WithConnectors(g, c).edges| == |g.edges| + |c|
    ensures WithConnectors(g, c).edges[..|g.edges|] == g.edges
    decreases |c|
  {
    if c != [] {
      var init := c[..|c| - 1];
      var last := c[|c| - 1];
      assert forall p :: p in init ==> p in c;
      WithConnectorsKeeps(g, init);
      WithEdgeWellFormed(WithConnectors(g, init), last.0, last.1, NoEdgeAttrs);
      assert WithConnectors(g, c).edges[..|g.edges|] == WithConnectors(g, init).edges[..|g.edges|];
    }
  }

  /** Adding the connectors appends one edge per connector, in order, from its first node to
      its second and with no attributes. */
  lemma {:induction false} WithConnectorsEdges(g: Graph, c: seq<Connector>)
    ensures |WithConnectors(g, c).edges| == |g.edges| + |c|
    ensures forall m :: 0 <= m < |c| ==>
      var e := WithConnectors(g, c).edges[|g.edges| + m];
      e.u == c[m].0 && e.v == c[m].1 && e.attrs == NoEdgeAttrs
    decreases |c|
  {
    if c != [] {
      var init := c[..|c| - 1];
      WithConnectorsEdges(g, init);
      var prev := WithConnectors(g, init);
      var last := c[|c| - 1];
      var r := WithConnectors(g, c).edges;
      assert r == prev.edges + [Edge(last.0, last.1, NewEdgeKey(prev.edges, last.0, last.1), NoEdgeAttrs)];
      forall m | 0 <= m < |c|
        ensures r[|g.edges| + m].u == c[m].0 && r[|g.edges| + m].v == c[m].1 && r[|g.edges| + m].attrs == NoEdgeAttrs
      {
        if m < |c| - 1 {
          assert r[|g.edges| + m] == prev.edges[|g.edges| + m] && c[m] == init[m];
        }
      }
    }
  }

  /** Node `n` belongs to one of the route graphs. */
  ghost predicate InSomeGraph(graphs: seq<Graph>, n: NodeId) {
    exists k :: 0 <= k < |graphs| && n in graphs[k].nodes
  }

  /** Both ends of each connector for toll node `t` are nodes of the route graphs. */
  lemma {:induction false} ConnectorsForEnds(graphs: seq<Graph>, t: NodeId, nearest: NearestNode, j: nat)
    requires 1 <= j <= |graphs| && ConnectorsFor(graphs, t, nearest, j).Ok?
    ensures forall p :: p in ConnectorsFor(graphs, t, nearest, j).value ==> InSomeGraph(graphs, p.0) && InSomeGraph(graphs, p.1)
    decreases j
  {
    if j > 1 {
      ConnectorsForEnds(graphs, t, nearest, j - 1);
      var n := NearestTo(graphs[0], graphs[j - 1], t, nearest).value;
      assert t in graphs[0].nodes && n in graphs[j - 1].nodes;
    }
  }

  /** Both ends of each connector for the first `i` toll nodes are nodes of the route graphs. */
  lemma {:induction false} ConnectorsUpToEnds(graphs: seq<Graph>, order: seq<NodeId>, nearest: NearestNode, i: nat)
    requires graphs != [] && i <= |order| && ConnectorsUpTo(graphs, order, nearest, i).Ok?
    ensures forall p :: p in ConnectorsUpTo(graphs, order, nearest, i).value ==> InSomeGraph(graphs, p.0) && InSomeGraph(graphs, p.1)
    decreases i
  {
    if i > 0 {
      ConnectorsUpToEnds(graphs, order, nearest, i - 1);
      ConnectorsForEnds(graphs, order[i - 1], nearest, |graphs|);
    }
  }

  /** `build_connected_graph` fails exactly when `get_connecting_routes` does, and with the
      same error. Otherwise it returns those connectors, and a well-formed graph with the
      nodes of the union, the union's edges, and after them one bare edge per connector, in
      order. */
  lemma ConnectedGraphSpec(graphs: seq<Graph>, tollOrder: seq<NodeId>, nearest: NearestNode)
    ensures ConnectedGraph(graphs, tollOrder, nearest).Ok? <==> ConnectingRoutes(graphs, tollOrder, nearest).Ok?
    ensures ConnectedGraph(graphs, tollOrder, nearest).Err? ==>
      ConnectedGraph(graphs, tollOrder, nearest).error == ConnectingRoutes(graphs, tollOrder, nearest).error
    ensures ConnectedGraph(graphs, tollOrder, nearest).Ok? ==>
      var (full, c) := ConnectedGraph(graphs, tollOrder, nearest).value;
      var union := ComposeUpTo(graphs, |graphs|);
      && c == ConnectingRoutes(graphs, tollOrder, nearest).value
      && WellFormed(full)
      && full.nodes == union.nodes
      && |full.edges| == |union.edges| + |c|
      && full.edges[..|union.edges|] == union.edges
      && forall m :: 0 <= m < |c| ==>
           full.edges[|union.edges| + m].u == c[m].0 && full.edges[|union.edges| + m].v == c[m].1
           && full.edges[|union.edges| + m].attrs == NoEdgeAttrs
  {
    var routes := ConnectingRoutes(graphs, tollOrder, nearest);
    if routes.Ok? {
      var union := ComposeUpTo(graphs, |graphs|);
      ComposeUpToSpec(graphs, |graphs|);
      ConnectorsUpToEnds(graphs, tollOrder, nearest, |tollOrder|);
      WithConnectorsKeeps(union, routes.value);
      WithConnectorsEdges(union, routes.value);
    }
  }
}
