/** The rest of `RouteGraphBuilder`: the path graph built from matched polyline
    points, the classification of the toll graph's two carriageways, and the choice
    of carriageway for a polyline. */
module RouteGraphBuilder {
  import opened Results
  import opened Sequences
  import opened RoadGraph
  import opened NodeRanking
  import opened Components

  // ---------------------------------------------------------------------
  // `sorted(route_nodes.keys())`

  ghost function PickIndex(s: set<nat>): (x: nat)
    requires s != {}
    ensures x in s
  {
    var x :| x in s; x
  }

  lemma {:induction false} LeastOf(s: set<nat>) returns (least: nat)
    requires s != {}
    ensures least in s && forall k :: k in s ==> least <= k
    decreases s
  {
    var x := PickIndex(s);
    var rest := s - {x};
    if rest == {} {
      least := x;
      forall k | k in s ensures least <= k {
        assert k !in rest;
      }
    } else {
      var m := LeastOf(rest);
      least := if x < m then x else m;
      forall k | k in s ensures least <= k {
        if k != x {
          assert k in rest;
        }
      }
    }
  }

  lemma LeastExists(s: set<nat>)
    requires s != {}
    ensures exists m :: m in s && forall k :: k in s ==> m <= k
  {
    var m := LeastOf(s);
  }

  /** The smallest index of `s`. */
  function Least(s: set<nat>): (m: nat)
    requires s != {}
    ensures m in s && forall k :: k in s ==> m <= k
  {
    LeastExists(s);
    var m :| m in s && forall k :: k in s ==> m <= k; m
  }

  /** `sorted(s)` for a set of indices: the indices of `s`, ascending. */
  function SortedKeys(s: set<nat>): (r: seq<nat>)
    ensures forall k :: k in r <==> k in s
    decreases s
  {
    if s == {} then []
    else
      var m := Least(s);
      [m] + SortedKeys(s - {m})
  }

  ghost predicate Increasing(keys: seq<nat>) {
    forall i, j :: 0 <= i < j < |keys| ==> keys[i] < keys[j]
  }

  /** Each index appears once, in ascending order. */
  lemma {:induction false} SortedKeysIncreasing(s: set<nat>)
    ensures Increasing(SortedKeys(s))
    decreases s
  {
    if s != {} {
      var m := Least(s);
      var rest := SortedKeys(s - {m});
      SortedKeysIncreasing(s - {m});
      var r := SortedKeys(s);
      assert r == [m] + rest;
      forall i, j | 0 <= i < j < |r| ensures r[i] < r[j] {
        assert r[j] == rest[j - 1];
        assert rest[j - 1] in rest;
        if i > 0 {
          assert r[i] == rest[i - 1];
        }
      }
    }
  }

  /** There are as many sorted indices as indices. */
  lemma {:induction false} SortedKeysSize(s: set<nat>)
    ensures |SortedKeys(s)| == |s|
    decreases s
  {
    if s != {} {
      SortedKeysSize(s - {Least(s)});
    }
  }

  // ---------------------------------------------------------------------
  // `build_route_graph`

  /** The attributes of a route-graph edge: only its `length`. */
  function LegAttrs(length: real): EdgeAttrs {
    NoEdgeAttrs.(length := Some(length))
  }

  /** One iteration for the `i`-th sorted key: copy the mapped base node under the key,
      then join the previous key to it by an edge whose `length` is the great-circle
      distance between the two mapped base nodes. A key missing from `route_nodes` or
      from the base graph is a `KeyError`. */
  function AddPoint(routeNodes: map<nat, NodeId>, base: Graph, gc: GreatCircle, keys: seq<nat>, i: nat, g: Graph)
    : Result<Graph>
  {
    if i >= |keys| || keys[i] !in routeNodes || routeNodes[keys[i]] !in base.nodes then Err(KeyNotFound)
    else
      var node := routeNodes[keys[i]];
      var g1 := WithNode(g, keys[i], base.nodes[node]);
      if i == 0 then Ok(g1)
      else if keys[i - 1] !in routeNodes then Err(KeyNotFound)
      else
        match Distance(base, gc, routeNodes[keys[i - 1]], node)
        case Err(e) => Err(e)
        case Ok(d) => Ok(WithEdge(g1, keys[i - 1], keys[i], LegAttrs(d)))
  }

  /** One iteration of the loop, from the graph so far and the position of the key. */
  type BuildStep = (Graph, nat) -> Result<Graph>

  function StepOf(routeNodes: map<nat, NodeId>, base: Graph, gc: GreatCircle, keys: seq<nat>): BuildStep {
    (g: Graph, i: nat) => AddPoint(routeNodes, base, gc, keys, i, g)
  }

  /** `G_sub` after the first `i` iterations; an aborted iteration aborts the rest. */
  function Fold(step: BuildStep, i: nat): Result<Graph> {
    if i == 0 then Ok(Graph(map[], []))
    else
      match Fold(step, i - 1)
      case Err(e) => Err(e)
      case Ok(g) => step(g, i - 1)
  }

  /** The whole of `build_route_graph`, as a value. */
  function RouteGraph(routeNodes: map<nat, NodeId>, base: Graph, gc: GreatCircle): Result<Graph> {
    var keys := SortedKeys(routeNodes.Keys);
    Fold(StepOf(routeNodes, base, gc, keys), |keys|)
  }

  /** `step` is the loop body of `build_route_graph` for these inputs. */
  ghost predicate IsBuildStep(step: BuildStep, routeNodes: map<nat, NodeId>, base: Graph, gc: GreatCircle, keys: seq<nat>) {
    forall g: Graph, i: nat {:trigger AddPoint(routeNodes, base, gc, keys, i, g)} ::
      step(g, i) == AddPoint(routeNodes, base, gc, keys, i, g)
  }

  /** `route_nodes` maps polyline indices to base-graph nodes; `gc` is the great-circle
      distance. The base graph is only read. */
  method BuildRouteGraph(routeNodes: map<nat, NodeId>, base: MultiDiGraph, gc: GreatCircle)
    returns (r: Result<MultiDiGraph>)
    ensures r.Ok? ==> fresh(r.value) && r.value.Valid() && RouteGraph(routeNodes, base.Snapshot(), gc) == Ok(r.value.Snapshot())
    ensures r.Err? ==> RouteGraph(routeNodes, base.Snapshot(), gc) == Err(r.error)
  {
    var keys := SortedKeys(routeNodes.Keys);
    r := BuildOver(routeNodes, base, gc, keys, StepOf(routeNodes, base.Snapshot(), gc, keys));
  }

  /** The loop of `build_route_graph` over the sorted keys `keys`. */
  method BuildOver(routeNodes: map<nat, NodeId>, base: MultiDiGraph, gc: GreatCircle, keys: seq<nat>, ghost step: BuildStep)
    returns (r: Result<MultiDiGraph>)
    requires KeysIn(keys, routeNodes) && IsBuildStep(step, routeNodes, base.Snapshot(), gc, keys)
    ensures r.Ok? ==> fresh(r.value) && r.value.Valid() && Fold(step, |keys|) == Ok(r.value.Snapshot())
    ensures r.Err? ==> Fold(step, |keys|) == Err(r.error)
  {
    var sub := new MultiDiGraph();
    var prev: Option<nat> := None;
    var i := 0;
    while i < |keys|
      invariant i <= |keys|
      invariant fresh(sub) && sub.Valid()
      invariant Fold(step, i) == Ok(sub.Snapshot())
      invariant prev == if i == 0 then None else Some(keys[i - 1])
    {
      var outcome := AddRoutePoint(sub, routeNodes, base, gc, keys, i, prev, step);
      if outcome.Fail? {
        FoldErrStays(step, i + 1, |keys|);
        return Err(outcome.error);
      }
      prev := Some(keys[i]);
      i := i + 1;
    }
    r := Ok(sub);
  }

  /** The body of the loop for the `i`-th key, `prev` being the key before it. */
  method AddRoutePoint(sub: MultiDiGraph, routeNodes: map<nat, NodeId>, base: MultiDiGraph, gc: GreatCircle,
                       keys: seq<nat>, i: nat, prev: Option<nat>, ghost step: BuildStep)
    returns (outcome: Outcome)
    requires sub != base && sub.Valid()
    requires i < |keys| && KeysIn(keys, routeNodes) && IsBuildStep(step, routeNodes, base.Snapshot(), gc, keys)
    requires prev == if i == 0 then None else Some(keys[i - 1])
    modifies sub
    ensures sub.Valid()
    ensures outcome.Pass? ==> step(old(sub.Snapshot()), i) == Ok(sub.Snapshot())
    ensures outcome.Fail? ==> step(old(sub.Snapshot()), i) == Err(outcome.error)
  {
    assert step(sub.Snapshot(), i) == AddPoint(routeNodes, base.Snapshot(), gc, keys, i, sub.Snapshot());
    var idx := keys[i];
    assert idx in keys;
    var node := routeNodes[idx];
    if node !in base.nodes {
      return Fail(KeyNotFound);
    }
    sub.AddNode(idx, base.nodes[node]);
    if prev.Some? {
      assert prev.value in keys;
      var d := Distance(base.Snapshot(), gc, routeNodes[prev.value], node);
      if d.Err? {
        return Fail(d.error);
      }
      var _ := sub.AddEdge(prev.value, idx, LegAttrs(d.value));
    }
    outcome := Pass;
  }

  // ---------------------------------------------------------------------
  // The fold, for any step

  /** Once an iteration aborts, the build as a whole aborts with the same error. */
  lemma {:induction false} FoldErrStays(step: BuildStep, i: nat, j: nat)
    requires i <= j && Fold(step, i).Err?
    ensures Fold(step, j) == Fold(step, i)
    decreases j - i
  {
    if i < j {
      FoldErrStays(step, i, j - 1);
    }
  }

  /** A step that fails exactly when `ok` does not hold of its position, always with a
      `KeyError`, makes the fold fail exactly when `ok` fails at some position. */
  lemma {:induction false} FoldOk(step: BuildStep, ok: nat -> bool, i: nat)
    requires forall g: Graph, j: nat {:trigger step(g, j)} :: (step(g, j).Ok? <==> ok(j)) && (step(g, j).Err? ==> step(g, j).error == KeyNotFound)
    ensures Fold(step, i).Ok? <==> forall j :: 0 <= j < i ==> ok(j)
    ensures Fold(step, i).Err? ==> Fold(step, i).error == KeyNotFound
  {
    if i > 0 {
      FoldOk(step, ok, i - 1);
      match Fold(step, i - 1)
      case Err(_) =>
        var j :| 0 <= j < i - 1 && !ok(j);
      case Ok(g) =>
        assert (step(g, i - 1).Ok? <==> ok(i - 1)) && (step(g, i - 1).Err? ==> step(g, i - 1).error == KeyNotFound);
        if ok(i - 1) {
          forall j | 0 <= j < i ensures ok(j) {
            if j < i - 1 {
              assert ok(j);
            }
          }
        }
    }
  }

  /** A property of the graph after `j` iterations that every step carries to `j + 1`
      holds of the fold's result. */
  lemma {:induction false} FoldKeeps(step: BuildStep, inv: (nat, Graph) -> bool, i: nat)
    requires inv(0, Graph(map[], []))
    requires forall g: Graph, j: nat {:trigger step(g, j)} :: inv(j, g) && step(g, j).Ok? ==> inv(j + 1, step(g, j).value)
    ensures Fold(step, i).Ok? ==> inv(i, Fold(step, i).value)
  {
    if i > 0 {
      FoldKeeps(step, inv, i - 1);
      match Fold(step, i - 1)
      case Err(_) =>
      case Ok(g) =>
        assert inv(i - 1, g) && step(g, i - 1).Ok? ==> inv(i, step(g, i - 1).value);
    }
  }

  // ---------------------------------------------------------------------
  // What one iteration does

  ghost predicate KeysIn(keys: seq<nat>, routeNodes: map<nat, NodeId>) {
    forall k :: k in keys ==> k in routeNodes
  }

  /** The `i`-th key can be added: its node is in the base graph and, after the first key,
      it and the previous key's node both have coordinates. */
  ghost predicate PointOk(routeNodes: map<nat, NodeId>, base: Graph, keys: seq<nat>, i: nat)
    requires KeysIn(keys, routeNodes)
  {
    && i < |keys|
    && routeNodes[keys[i]] in base.nodes
    && (i > 0 ==> Position(base, routeNodes[keys[i - 1]]).Some? && Position(base, routeNodes[keys[i]]).Some?)
  }

  lemma AddPointOk(routeNodes: map<nat, NodeId>, base: Graph, gc: GreatCircle, keys: seq<nat>, i: nat, g: Graph)
    requires KeysIn(keys, routeNodes)
    ensures var r := AddPoint(routeNodes, base, gc, keys, i, g);
      (r.Ok? <==> PointOk(routeNodes, base, keys, i)) && (r.Err? ==> r.error == KeyNotFound)
  {
    if i < |keys| {
      assert keys[i] in keys;
      if i > 0 {
        assert keys[i - 1] in keys;
      }
    }
  }

  /** Leg `j` joins the `j`-th key to the next one, with the distance between their nodes. */
  ghost predicate Leg(routeNodes: map<nat, NodeId>, base: Graph, gc: GreatCircle, keys: seq<nat>, j: nat, e: Edge)
    requires j + 1 < |keys| && KeysIn(keys, routeNodes)
  {
    var d := Distance(base, gc, routeNodes[keys[j]], routeNodes[keys[j + 1]]);
    d.Ok? && e == Edge(keys[j], keys[j + 1], 0, LegAttrs(d.value))
  }

  /** Key `j` carries the attributes of the base node it maps to. */
  ghost predicate Copied(routeNodes: map<nat, NodeId>, base: Graph, keys: seq<nat>, j: nat, g: Graph)
    requires j < |keys| && KeysIn(keys, routeNodes)
  {
    routeNodes[keys[j]] in base.nodes && keys[j] in g.nodes && g.nodes[keys[j]] == base.nodes[routeNodes[keys[j]]]
  }

  /** After `i` iterations the nodes are the first `i` keys, each carrying its mapped
      node's attributes, and the edges are the legs between consecutive ones. */
  ghost predicate Built(routeNodes: map<nat, NodeId>, base: Graph, gc: GreatCircle, keys: seq<nat>, i: nat, g: Graph) {
    && i <= |keys| && KeysIn(keys, routeNodes)
    && (forall n :: n in g.nodes <==> n in keys[..i])
    && (forall j :: 0 <= j < i ==> Copied(routeNodes, base, keys, j, g))
    && |g.edges| == (if i == 0 then 0 else i - 1)
    && (forall j :: 0 <= j < |g.edges| ==> Leg(routeNodes, base, gc, keys, j, g.edges[j]))
  }

  /** A new edge between `u` and `v` gets key 0 when no edge leaves `u` yet. */
  lemma FirstEdgeKey(edges: seq<Edge>, u: NodeId, v: NodeId)
    requires forall e :: e in edges ==> e.u != u
    ensures NewEdgeKey(edges, u, v) == 0
  {
    FilterNone(edges, IsBetween(u, v));
    assert KeysBetween(edges, u, v) == {};
  }

  lemma AddPointNodes(routeNodes: map<nat, NodeId>, base: Graph, gc: GreatCircle, keys: seq<nat>, i: nat, g: Graph)
    requires Increasing(keys) && Built(routeNodes, base, gc, keys, i, g)
    requires AddPoint(routeNodes, base, gc, keys, i, g).Ok?
    ensures var r := AddPoint(routeNodes, base, gc, keys, i, g).value;
      && (forall n :: n in r.nodes <==> n in keys[..i + 1])
      && (forall j :: 0 <= j < i + 1 ==> Copied(routeNodes, base, keys, j, r))
  {
    var r := AddPoint(routeNodes, base, gc, keys, i, g).value;
    var k := keys[i];
    forall j | 0 <= j < i ensures keys[..i][j] != k {
      assert keys[j] < keys[i];
    }
    assert k !in keys[..i];
    var g1 := WithNode(g, k, base.nodes[routeNodes[k]]);
    assert keys[..i + 1] == keys[..i] + [k];
    if i > 0 {
      assert keys[i - 1] in g1.nodes by {
        assert keys[..i][i - 1] == keys[i - 1];
      }
    }
    assert r.nodes == g1.nodes;
    forall j | 0 <= j < i + 1 ensures Copied(routeNodes, base, keys, j, r) {
      if j < i {
        assert Copied(routeNodes, base, keys, j, g);
        assert keys[j] != k;
      }
    }
  }

  lemma AddPointEdges(routeNodes: map<nat, NodeId>, base: Graph, gc: GreatCircle, keys: seq<nat>, i: nat, g: Graph)
    requires Increasing(keys) && Built(routeNodes, base, gc, keys, i, g)
    requires AddPoint(routeNodes, base, gc, keys, i, g).Ok?
    ensures var r := AddPoint(routeNodes, base, gc, keys, i, g).value;
      && |r.edges| == i
      && (forall j :: 0 <= j < |r.edges| ==> Leg(routeNodes, base, gc, keys, j, r.edges[j]))
  {
    var r := AddPoint(routeNodes, base, gc, keys, i, g).value;
    var k := keys[i];
    var g1 := WithNode(g, k, base.nodes[routeNodes[k]]);
    if i > 0 {
      var d := Distance(base, gc, routeNodes[keys[i - 1]], routeNodes[k]);
      forall e | e in g1.edges ensures e.u != keys[i - 1] {
        var j :| 0 <= j < |g.edges| && g.edges[j] == e;
        assert Leg(routeNodes, base, gc, keys, j, g.edges[j]);
      }
      FirstEdgeKey(g1.edges, keys[i - 1], k);
      assert r.edges == g.edges + [Edge(keys[i - 1], k, 0, LegAttrs(d.value))];
      forall j | 0 <= j < |r.edges| ensures Leg(routeNodes, base, gc, keys, j, r.edges[j]) {
        if j < i - 1 {
          assert r.edges[j] == g.edges[j];
          assert Leg(routeNodes, base, gc, keys, j, g.edges[j]);
        }
      }
    }
  }

  /** One iteration carries `Built` from `i` keys to `i + 1`. */
  lemma AddPointBuilt(routeNodes: map<nat, NodeId>, base: Graph, gc: GreatCircle, keys: seq<nat>, i: nat, g: Graph)
    requires Increasing(keys) && Built(routeNodes, base, gc, keys, i, g)
    requires AddPoint(routeNodes, base, gc, keys, i, g).Ok?
    ensures Built(routeNodes, base, gc, keys, i + 1, AddPoint(routeNodes, base, gc, keys, i, g).value)
  {
    AddPointNodes(routeNodes, base, gc, keys, i, g);
    AddPointEdges(routeNodes, base, gc, keys, i, g);
  }

  // ---------------------------------------------------------------------
  // Properties of `build_route_graph`

  /** It fails, with a `KeyError`, exactly when a mapped node is missing from the base
      graph or one of two consecutive mapped nodes lacks a coordinate. */
  lemma RouteGraphFails(routeNodes: map<nat, NodeId>, base: Graph, gc: GreatCircle)
    ensures var r := RouteGraph(routeNodes, base, gc);
      var keys := SortedKeys(routeNodes.Keys);
      && KeysIn(keys, routeNodes)
      && (r.Ok? <==> forall j :: 0 <= j < |keys| ==> PointOk(routeNodes, base, keys, j))
      && (r.Err? ==> r.error == KeyNotFound)
  {
    var keys := SortedKeys(routeNodes.Keys);
    var step := StepOf(routeNodes, base, gc, keys);
    forall g: Graph, j: nat ensures (step(g, j).Ok? <==> PointOk(routeNodes, base, keys, j)) && (step(g, j).Err? ==> step(g, j).error == KeyNotFound) {
      AddPointOk(routeNodes, base, gc, keys, j, g);
    }
    var ok := (j: nat) => PointOk(routeNodes, base, keys, j);
    FoldOk(step, ok, |keys|);
    assert Fold(step, |keys|) == RouteGraph(routeNodes, base, gc);
    forall j: nat ensures ok(j) == PointOk(routeNodes, base, keys, j) {
    }
  }

  /** What the graph is after all keys. */
  lemma RouteGraphBuilt(routeNodes: map<nat, NodeId>, base: Graph, gc: GreatCircle)
    ensures var r := RouteGraph(routeNodes, base, gc);
      var keys := SortedKeys(routeNodes.Keys);
      r.Ok? ==> Increasing(keys) && Built(routeNodes, base, gc, keys, |keys|, r.value)
  {
    var keys := SortedKeys(routeNodes.Keys);
    SortedKeysIncreasing(routeNodes.Keys);
    var step := StepOf(routeNodes, base, gc, keys);
    var inv := (j: nat, g: Graph) => Built(routeNodes, base, gc, keys, j, g);
    forall g: Graph, j: nat | inv(j, g) && step(g, j).Ok? ensures inv(j + 1, step(g, j).value) {
      AddPointBuilt(routeNodes, base, gc, keys, j, g);
    }
    assert keys[..0] == [];
    assert inv(0, Graph(map[], []));
    FoldKeeps(step, inv, |keys|);
    assert Fold(step, |keys|) == RouteGraph(routeNodes, base, gc);
    forall j: nat, g: Graph ensures inv(j, g) == Built(routeNodes, base, gc, keys, j, g) {
    }
  }

  /** Its nodes are exactly the keys of `route_nodes`, each carrying the attributes of the
      base node it maps to. */
  lemma RouteGraphNodes(routeNodes: map<nat, NodeId>, base: Graph, gc: GreatCircle)
    ensures var r := RouteGraph(routeNodes, base, gc);
      r.Ok? ==>
        && (forall n :: n in r.value.nodes <==> n >= 0 && n as nat in routeNodes)
        && (forall k :: k in routeNodes ==>
              routeNodes[k] in base.nodes && k in r.value.nodes && r.value.nodes[k] == base.nodes[routeNodes[k]])
  {
    var keys := SortedKeys(routeNodes.Keys);
    RouteGraphBuilt(routeNodes, base, gc);
    assert keys[..|keys|] == keys;
    var r := RouteGraph(routeNodes, base, gc);
    if r.Ok? {
      forall k | k in routeNodes
        ensures routeNodes[k] in base.nodes && k in r.value.nodes && r.value.nodes[k] == base.nodes[routeNodes[k]]
      {
        var j :| 0 <= j < |keys| && keys[j] == k;
        assert Copied(routeNodes, base, keys, j, r.value);
      }
    }
  }

  /** It has one edge per two consecutive keys in ascending order, from the smaller key to
      the larger, whose `length` is the distance between their mapped nodes. */
  lemma RouteGraphEdges(routeNodes: map<nat, NodeId>, base: Graph, gc: GreatCircle)
    ensures var r := RouteGraph(routeNodes, base, gc);
      var keys := SortedKeys(routeNodes.Keys);
      r.Ok? ==>
        && |r.value.edges| == (if routeNodes == map[] then 0 else |routeNodes| - 1)
        && Increasing(keys) && KeysIn(keys, routeNodes)
        && forall j :: 0 <= j < |r.value.edges| ==> j + 1 < |keys| && Leg(routeNodes, base, gc, keys, j, r.value.edges[j])
  {
    var keys := SortedKeys(routeNodes.Keys);
    RouteGraphBuilt(routeNodes, base, gc);
    SortedKeysSize(routeNodes.Keys);
    if routeNodes == map[] {
      assert routeNodes.Keys == {};
    } else {
      var k :| k in routeNodes;
      assert k in routeNodes.Keys;
    }
  }

  // ---------------------------------------------------------------------
  // `get_graph_directional_components`

  /** The two carriageways of the toll road. */
  datatype Direction = SouthWestToNorthEast | NorthEastToSouthWest

  function Opposite(d: Direction): Direction {
    match d
    case SouthWestToNorthEast => NorthEastToSouthWest
    case NorthEastToSouthWest => SouthWestToNorthEast
  }

  /** The direction of a component running from a node with attributes `s` to one with
      attributes `e`. The two comparisons are read left to right and short-circuit, so a
      longitude is read only once the latitudes compare the right way, and a missing
      coordinate that is read is a `KeyError`. */
  function Classify(s: NodeAttrs, e: NodeAttrs): Result<Direction> {
    if s.y.None? || e.y.None? then Err(KeyNotFound)
    else if s.y.value < e.y.value then
      if s.x.None? || e.x.None? then Err(KeyNotFound)
      else if s.x.value < e.x.value then Ok(SouthWestToNorthEast)
      else Err(AmbiguousDirection)
    else if s.y.value > e.y.value then
      if s.x.None? || e.x.None? then Err(KeyNotFound)
      else if s.x.value > e.x.value then Ok(NorthEastToSouthWest)
      else Err(AmbiguousDirection)
    else Err(AmbiguousDirection)
  }

  /** The direction in which one moves from `a` to `b`, when it is the same on both axes. */
  function Heading(a: LatLon, b: LatLon): (r: Result<Direction>)
    ensures r.Err? ==> r.error == AmbiguousDirection
  {
    if a.lat < b.lat && a.lon < b.lon then Ok(SouthWestToNorthEast)
    else if a.lat > b.lat && a.lon > b.lon then Ok(NorthEastToSouthWest)
    else Err(AmbiguousDirection)
  }

  /** When both nodes have coordinates, a component's class is the heading from its start
      to its end. */
  lemma ClassifyIsHeading(s: NodeAttrs, e: NodeAttrs)
    requires s.y.Some? && s.x.Some? && e.y.Some? && e.x.Some?
    ensures Classify(s, e) == Heading(LatLon(s.y.value, s.x.value), LatLon(e.y.value, e.x.value))
  {
  }

  /** A component whose start and end are swapped falls in the other class, and one that
      fails still fails, for the same reason. */
  lemma ClassifySwap(s: NodeAttrs, e: NodeAttrs)
    ensures Classify(s, e).Ok? <==> Classify(e, s).Ok?
    ensures Classify(s, e).Ok? ==> Classify(e, s).value == Opposite(Classify(s, e).value)
    ensures Classify(s, e).Err? ==> Classify(e, s).error == Classify(s, e).error
  {
  }

  /** The class of one component: its unique start node and unique end node, compared. */
  function ComponentDirection(g: Graph, comp: seq<NodeId>): (r: Result<Direction>)
    ensures r.Err? && r.error == InvalidTopology <==>
      |Filter(comp, IsStartNode(g))| != 1 || |Filter(comp, IsEndNode(g))| != 1
  {
    match TheOnly(comp, IsStartNode(g))
    case Err(e) => Err(e)
    case Ok(start) =>
      match TheOnly(comp, IsEndNode(g))
      case Err(e) => Err(e)
      case Ok(end) =>
        if start !in g.nodes || end !in g.nodes then Err(KeyNotFound)
        else Classify(g.nodes[start], g.nodes[end])
  }

  /** How each component is classified. */
  type Classifier = seq<NodeId> -> Result<Direction>

  function ClassOf(g: Graph): Classifier {
    (comp: seq<NodeId>) => ComponentDirection(g, comp)
  }

  /** `(sw_to_ne_comp, ne_to_sw_comp)` after the first `k` components, `None` standing
      for a variable still unassigned; a failing component aborts the rest. */
  function ClassifiedUpTo(classOf: Classifier, comps: seq<seq<NodeId>>, k: nat)
    : Result<(Option<seq<NodeId>>, Option<seq<NodeId>>)>
    requires k <= |comps|
  {
    if k == 0 then Ok((None, None))
    else
      match ClassifiedUpTo(classOf, comps, k - 1)
      case Err(e) => Err(e)
      case Ok(found) =>
        match classOf(comps[k - 1])
        case Err(e) => Err(e)
        case Ok(d) => Ok(Record(found, comps[k - 1], d))
  }

  /** The assignment made for a component of direction `d`. */
  function Record(found: (Option<seq<NodeId>>, Option<seq<NodeId>>), comp: seq<NodeId>, d: Direction)
    : (Option<seq<NodeId>>, Option<seq<NodeId>>)
  {
    match d
    case SouthWestToNorthEast => (Some(comp), found.1)
    case NorthEastToSouthWest => (found.0, Some(comp))
  }

  /** The result: both components, or the failure of the final `assert`. */
  function DirectionalComponents(g: Graph, comps: seq<seq<NodeId>>): Result<(seq<NodeId>, seq<NodeId>)> {
    Pick(ClassifiedUpTo(ClassOf(g), comps, |comps|))
  }

  function Pick(classified: Result<(Option<seq<NodeId>>, Option<seq<NodeId>>)>): Result<(seq<NodeId>, seq<NodeId>)> {
    match classified
    case Err(e) => Err(e)
    case Ok(found) =>
      if found.0.Some? && found.1.Some? then Ok((found.0.value, found.1.value))
      else Err(MissingComponent)
  }

  /** `comps` stands for `nx.weakly_connected_components(graph)`, in its iteration order. */
  method GetGraphDirectionalComponents(g: Graph, comps: seq<seq<NodeId>>)
    returns (r: Result<(seq<NodeId>, seq<NodeId>)>)
    ensures r == DirectionalComponents(g, comps)
  {
    r := ClassifyComponents(ClassOf(g), comps);
  }

  /** The loop over the components, each classified by `classOf`; the last component of
      each class is kept. */
  method ClassifyComponents(classOf: Classifier, comps: seq<seq<NodeId>>)
    returns (r: Result<(seq<NodeId>, seq<NodeId>)>)
    ensures r == Pick(ClassifiedUpTo(classOf, comps, |comps|))
  {
    var swToNe: Option<seq<NodeId>> := None;
    var neToSw: Option<seq<NodeId>> := None;
    var k := 0;
    while k < |comps|
      invariant k <= |comps|
      invariant ClassifiedUpTo(classOf, comps, k) == Ok((swToNe, neToSw))
    {
      var direction := classOf(comps[k]);
      if direction.Err? {
        ClassifiedStaysErr(classOf, comps, k + 1, |comps|);
        return Err(direction.error);
      }
      if direction.value == SouthWestToNorthEast {
        swToNe := Some(comps[k]);
      } else {
        neToSw := Some(comps[k]);
      }
      k := k + 1;
    }
    if swToNe.None? || neToSw.None? {
      return Err(MissingComponent);
    }
    r := Ok((swToNe.value, neToSw.value));
  }

  lemma {:induction false} ClassifiedStaysErr(classOf: Classifier, comps: seq<seq<NodeId>>, k: nat, n: nat)
    requires k <= n <= |comps| && ClassifiedUpTo(classOf, comps, k).Err?
    ensures ClassifiedUpTo(classOf, comps, n) == ClassifiedUpTo(classOf, comps, k)
    decreases n - k
  {
    if k < n {
      ClassifiedStaysErr(classOf, comps, k + 1, n);
    }
  }

  /** Component `m` is the first of the first `k` to fail, and it fails with `e`. */
  ghost predicate FirstFailure(classOf: Classifier, comps: seq<seq<NodeId>>, k: nat, e: Failure)
    requires k <= |comps|
  {
    exists m :: 0 <= m < k && classOf(comps[m]) == Err(e) && forall j :: 0 <= j < m ==> classOf(comps[j]).Ok?
  }

  /** `c` is what a variable assigned for each component of class `d` holds after the first
      `k` components: the last such component, or nothing when there was none. */
  ghost predicate LastOfClass(classOf: Classifier, comps: seq<seq<NodeId>>, k: nat, d: Direction, c: Option<seq<NodeId>>)
    requires k <= |comps|
  {
    match c
    case None => forall m :: 0 <= m < k ==> classOf(comps[m]) != Ok(d)
    case Some(comp) =>
      exists m :: 0 <= m < k && comps[m] == comp && classOf(comps[m]) == Ok(d)
                  && forall j :: m < j < k ==> classOf(comps[j]) != Ok(d)
  }

  /** The classification of the first `k` components succeeds exactly when each of them
      classifies, and otherwise fails as the first one that does not. */
  lemma {:induction false} ClassifiedUpToFails(classOf: Classifier, comps: seq<seq<NodeId>>, k: nat)
    requires k <= |comps|
    ensures ClassifiedUpTo(classOf, comps, k).Ok? <==> forall m :: 0 <= m < k ==> classOf(comps[m]).Ok?
    ensures ClassifiedUpTo(classOf, comps, k).Err? ==> FirstFailure(classOf, comps, k, ClassifiedUpTo(classOf, comps, k).error)
  {
    if k > 0 {
      ClassifiedUpToFails(classOf, comps, k - 1);
      var prev := ClassifiedUpTo(classOf, comps, k - 1);
      if prev.Err? {
        var m :| 0 <= m < k - 1 && classOf(comps[m]) == Err(prev.error) && forall j :: 0 <= j < m ==> classOf(comps[j]).Ok?;
        assert FirstFailure(classOf, comps, k, prev.error);
      } else if classOf(comps[k - 1]).Err? {
        assert FirstFailure(classOf, comps, k, classOf(comps[k - 1]).error);
      }
    }
  }

  /** A component of another class leaves a variable as it was. */
  lemma LastOfClassKeeps(classOf: Classifier, comps: seq<seq<NodeId>>, k: nat, d: Direction, c: Option<seq<NodeId>>)
    requires k < |comps| && LastOfClass(classOf, comps, k, d, c) && classOf(comps[k]) != Ok(d)
    ensures LastOfClass(classOf, comps, k + 1, d, c)
  {
    if c.Some? {
      var m :| 0 <= m < k && comps[m] == c.value && classOf(comps[m]) == Ok(d)
               && forall j :: m < j < k ==> classOf(comps[j]) != Ok(d);
      assert forall j :: m < j < k + 1 ==> classOf(comps[j]) != Ok(d);
    }
  }

  /** Where the classification of the first `k` components succeeds, each variable holds the
      last of those components in its class, so a later one overwrites an earlier one. */
  lemma {:induction false} ClassifiedUpToLast(classOf: Classifier, comps: seq<seq<NodeId>>, k: nat)
    requires k <= |comps|
    ensures ClassifiedUpTo(classOf, comps, k).Ok? ==>
      && LastOfClass(classOf, comps, k, SouthWestToNorthEast, ClassifiedUpTo(classOf, comps, k).value.0)
      && LastOfClass(classOf, comps, k, NorthEastToSouthWest, ClassifiedUpTo(classOf, comps, k).value.1)
  {
    if k > 0 {
      ClassifiedUpToLast(classOf, comps, k - 1);
      var prev := ClassifiedUpTo(classOf, comps, k - 1);
      var d := classOf(comps[k - 1]);
      if prev.Ok? && d.Ok? {
        var found := prev.value;
        if d.value == SouthWestToNorthEast {
          assert LastOfClass(classOf, comps, k, SouthWestToNorthEast, Some(comps[k - 1]));
          LastOfClassKeeps(classOf, comps, k - 1, NorthEastToSouthWest, found.1);
        } else {
          assert LastOfClass(classOf, comps, k, NorthEastToSouthWest, Some(comps[k - 1]));
          LastOfClassKeeps(classOf, comps, k - 1, SouthWestToNorthEast, found.0);
        }
      }
    }
  }

  /** Some component is of class `d`. */
  ghost predicate ClassOccurs(classOf: Classifier, comps: seq<seq<NodeId>>, d: Direction) {
    exists m :: 0 <= m < |comps| && classOf(comps[m]) == Ok(d)
  }

  /** The outcome of the loop: it fails as the first component that does not classify;
      when every component classifies, it succeeds exactly when both classes occur, and
      fails on the final `assert` otherwise. */
  lemma PickFails(classOf: Classifier, comps: seq<seq<NodeId>>)
    ensures var r := Pick(ClassifiedUpTo(classOf, comps, |comps|));
      if forall m :: 0 <= m < |comps| ==> classOf(comps[m]).Ok?
      then (r.Ok? <==> ClassOccurs(classOf, comps, SouthWestToNorthEast) && ClassOccurs(classOf, comps, NorthEastToSouthWest))
           && (r.Err? ==> r.error == MissingComponent)
      else r.Err? && FirstFailure(classOf, comps, |comps|, r.error)
  {
    ClassifiedUpToFails(classOf, comps, |comps|);
    ClassifiedUpToLast(classOf, comps, |comps|);
  }

  /** `get_graph_directional_components` fails as the first component without a unique start
      and end node or with an ambiguous direction; when every component classifies, it
      succeeds exactly when both classes occur, and fails on its final `assert` otherwise. */
  lemma DirectionalComponentsFails(g: Graph, comps: seq<seq<NodeId>>)
    ensures var r := DirectionalComponents(g, comps);
      if forall m :: 0 <= m < |comps| ==> ClassOf(g)(comps[m]).Ok?
      then (r.Ok? <==> ClassOccurs(ClassOf(g), comps, SouthWestToNorthEast) && ClassOccurs(ClassOf(g), comps, NorthEastToSouthWest))
           && (r.Err? ==> r.error == MissingComponent)
      else r.Err? && FirstFailure(ClassOf(g), comps, |comps|, r.error)
  {
    PickFails(ClassOf(g), comps);
  }

  /** On success the two components are the last component of each class. */
  lemma DirectionalComponentsLast(g: Graph, comps: seq<seq<NodeId>>)
    ensures var r := DirectionalComponents(g, comps);
      r.Ok? ==>
        && LastOfClass(ClassOf(g), comps, |comps|, SouthWestToNorthEast, Some(r.value.0))
        && LastOfClass(ClassOf(g), comps, |comps|, NorthEastToSouthWest, Some(r.value.1))
  {
    ClassifiedUpToLast(ClassOf(g), comps, |comps|);
  }

  /** A component that classifies has coordinates at its start and end node, and its class
      is the heading from the one to the other. */
  lemma ComponentDirectionOk(g: Graph, comp: seq<NodeId>)
    ensures ComponentDirection(g, comp).Ok? ==>
      exists s, e :: && s in comp && IsStartNode(g)(s) && e in comp && IsEndNode(g)(e)
                     && Position(g, s).Some? && Position(g, e).Some?
                     && ComponentDirection(g, comp) == Heading(Position(g, s).value, Position(g, e).value)
  {
    var r := ComponentDirection(g, comp);
    if r.Ok? {
      var s := TheOnly(comp, IsStartNode(g)).value;
      var e := TheOnly(comp, IsEndNode(g)).value;
      ClassifyIsHeading(g.nodes[s], g.nodes[e]);
      assert Position(g, s).Some? && Position(g, e).Some?;
    }
  }

  /** Conversely, a component whose unique start and end nodes have coordinates is classified
      by the heading from the one to the other. */
  lemma ComponentDirectionIsHeading(g: Graph, comp: seq<NodeId>, s: NodeId, e: NodeId)
    requires s in comp && IsStartNode(g)(s) && |Filter(comp, IsStartNode(g))| == 1
    requires e in comp && IsEndNode(g)(e) && |Filter(comp, IsEndNode(g))| == 1
    requires Position(g, s).Some? && Position(g, e).Some?
    ensures ComponentDirection(g, comp) == Heading(Position(g, s).value, Position(g, e).value)
  {
    TheOnlyUnique(comp, IsStartNode(g));
    TheOnlyUnique(comp, IsEndNode(g));
    var i :| 0 <= i < |comp| && comp[i] == s;
    var j :| 0 <= j < |comp| && comp[j] == e;
    ClassifyIsHeading(g.nodes[s], g.nodes[e]);
  }

  // ---------------------------------------------------------------------
  // `choose_directional_graph_from_polyline`

  /** The carriageway graph for a polyline: the one whose direction is the heading from the
      first point to the last. An empty polyline is an `IndexError`. */
  function ChooseDirectional<G>(polyline: seq<LatLon>, swToNe: G, neToSw: G): (r: Result<G>)
    ensures r.Ok? ==> polyline != [] && (r.value == swToNe || r.value == neToSw)
    ensures r == Err(IndexOutOfRange) <==> polyline == []
    ensures r.Err? ==> r.error == IndexOutOfRange || r.error == AmbiguousDirection
  {
    if polyline == [] then Err(IndexOutOfRange)
    else
      match Heading(polyline[0], polyline[|polyline| - 1])
      case Err(e) => Err(e)
      case Ok(SouthWestToNorthEast) => Ok(swToNe)
      case Ok(NorthEastToSouthWest) => Ok(neToSw)
  }

  /** The south-west-to-north-east graph is chosen when the last point is strictly north and
      strictly east of the first, the other when it is strictly south and strictly west, and
      the choice fails otherwise. */
  lemma ChooseDirectionalSpec<G>(polyline: seq<LatLon>, swToNe: G, neToSw: G)
    ensures var r := ChooseDirectional(polyline, swToNe, neToSw);
      && (polyline == [] ==> r == Err(IndexOutOfRange))
      && (polyline != [] ==>
            var a, b := polyline[0], polyline[|polyline| - 1];
            && (a.lat < b.lat && a.lon < b.lon ==> r == Ok(swToNe))
            && (a.lat > b.lat && a.lon > b.lon ==> r == Ok(neToSw))
            && (r.Err? <==> !(a.lat < b.lat && a.lon < b.lon) && !(a.lat > b.lat && a.lon > b.lon))
            && (r.Err? ==> r.error == AmbiguousDirection))
  {
  }

  /** Travelling a polyline backwards chooses the other carriageway. */
  lemma ChooseDirectionalReversed<G>(polyline: seq<LatLon>, swToNe: G, neToSw: G)
    ensures ChooseDirectional(Reversed(polyline), swToNe, neToSw) == ChooseDirectional(polyline, neToSw, swToNe)
  {
    if polyline != [] {
      var rev := Reversed(polyline);
      assert rev[0] == polyline[|polyline| - 1] && rev[|rev| - 1] == polyline[0];
    }
  }

  /** Each point lies strictly north-east of the one before. */
  ghost predicate NorthEastward(polyline: seq<LatLon>) {
    forall i :: 0 <= i < |polyline| - 1 ==> polyline[i].lat < polyline[i + 1].lat && polyline[i].lon < polyline[i + 1].lon
  }

  /** Along a polyline heading north-east at every step, the last point is north-east of the
      first. */
  lemma {:induction false} NorthEastwardEnds(polyline: seq<LatLon>)
    requires |polyline| >= 2 && NorthEastward(polyline)
    ensures polyline[0].lat < polyline[|polyline| - 1].lat && polyline[0].lon < polyline[|polyline| - 1].lon
    decreases |polyline|
  {
    if |polyline| > 2 {
      var init := polyline[..|polyline| - 1];
      assert NorthEastward(init);
      NorthEastwardEnds(init);
      assert init[|init| - 1] == polyline[|polyline| - 2];
    }
  }

  /** A polyline of two points or more heading north-east at every step chooses the
      south-west-to-north-east graph, and the same polyline travelled backwards the other. */
  lemma ChooseDirectionalMonotone<G>(polyline: seq<LatLon>, swToNe: G, neToSw: G)
    requires |polyline| >= 2 && NorthEastward(polyline)
    ensures ChooseDirectional(polyline, swToNe, neToSw) == Ok(swToNe)
    ensures ChooseDirectional(Reversed(polyline), swToNe, neToSw) == Ok(neToSw)
  {
    NorthEastwardEnds(polyline);
    ChooseDirectionalReversed(polyline, swToNe, neToSw);
  }

  /** A polyline of a single point, or one that ends where it starts, is ambiguous. */
  lemma ChooseDirectionalClosed<G>(polyline: seq<LatLon>, swToNe: G, neToSw: G)
    requires polyline != [] && polyline[0] == polyline[|polyline| - 1]
    ensures ChooseDirectional(polyline, swToNe, neToSw) == Err(AmbiguousDirection)
  {
  }
}
