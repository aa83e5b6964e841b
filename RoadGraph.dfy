/** The road network: a directed multigraph whose nodes carry optional
    coordinates and tags and whose keyed edges carry optional OpenStreetMap
    attributes. `Graph` is the value of a graph at one moment; `MultiDiGraph`
    is the mutable graph object that the pipeline updates in place. */
module RoadGraph {
  import opened Results
  import opened Sequences

  type NodeId = int

  /** The value stored under a node's `tag` key: Python `None` or a string. */
  datatype TagValue = NullTag | TagText(text: string)

  /** The `osmid_original` attribute of a consolidated node: one id or a list of ids. */
  datatype OsmidValue = OsmidScalar(id: int) | OsmidList(ids: seq<int>)

  /** Node attributes; `None` means the key is absent from the attribute dict. */
  datatype NodeAttrs = NodeAttrs(
    x: Option<real>,             // longitude
    y: Option<real>,             // latitude
    tag: Option<TagValue>,
    osmidOriginal: Option<OsmidValue>)

  const NoNodeAttrs := NodeAttrs(None, None, None, None)

  /** An edge's `highway` value: a string, a list, or a value of another type. */
  datatype Highway = HighwayName(name: string) | HighwayList(names: seq<string>) | HighwayOther

  /** Edge attributes; `refText`/`nameText` hold the `str()` rendering of `ref`/`name`. */
  datatype EdgeAttrs = EdgeAttrs(
    toll: Option<string>,
    refText: Option<string>,
    nameText: Option<string>,
    highway: Option<Highway>,
    length: Option<real>)

  const NoEdgeAttrs := EdgeAttrs(None, None, None, None, None)

  /** A keyed directed edge `(u, v, key)` with its attributes. */
  datatype Edge = Edge(u: NodeId, v: NodeId, key: nat, attrs: EdgeAttrs)

  /** Nodes by id, and the edges in insertion order. */
  datatype Graph = Graph(nodes: map<NodeId, NodeAttrs>, edges: seq<Edge>)

  /** A latitude/longitude pair read from a node's `y` and `x`. */
  datatype LatLon = LatLon(lat: real, lon: real)

  predicate SameSlot(a: Edge, b: Edge) {
    a.u == b.u && a.v == b.v && a.key == b.key
  }

  /** No two edges share the same `(u, v, key)`. */
  ghost predicate UniqueSlots(edges: seq<Edge>) {
    forall i, j :: 0 <= i < j < |edges| ==> !SameSlot(edges[i], edges[j])
  }

  /** What the graph library maintains: edge endpoints are nodes, keys are unique per pair. */
  ghost predicate WellFormed(g: Graph) {
    && (forall e :: e in g.edges ==> e.u in g.nodes && e.v in g.nodes)
    && UniqueSlots(g.edges)
  }

  function IsOutEdgeOf(n: NodeId): Edge -> bool {
    (e: Edge) => e.u == n
  }

  function IsInEdgeOf(n: NodeId): Edge -> bool {
    (e: Edge) => e.v == n
  }

  /** `graph.out_edges(n, keys=True)`: the edges leaving `n`, in order. */
  function OutEdges(edges: seq<Edge>, n: NodeId): (r: seq<Edge>)
    ensures forall e :: e in r <==> e in edges && e.u == n
  {
    Filter(edges, IsOutEdgeOf(n))
  }

  function InEdges(edges: seq<Edge>, n: NodeId): (r: seq<Edge>)
    ensures forall e :: e in r <==> e in edges && e.v == n
  {
    Filter(edges, IsInEdgeOf(n))
  }

  /** `graph.out_degree(n)`: parallel edges count separately. */
  function OutDegree(g: Graph, n: NodeId): nat {
    |OutEdges(g.edges, n)|
  }

  /** `graph.in_degree(n)`. */
  function InDegree(g: Graph, n: NodeId): nat {
    |InEdges(g.edges, n)|
  }

  /** The node's `y` and `x`, when the node exists and both keys are present. */
  function Position(g: Graph, n: NodeId): (p: Option<LatLon>)
    ensures p.Some? <==> n in g.nodes && g.nodes[n].y.Some? && g.nodes[n].x.Some?
  {
    if n in g.nodes && g.nodes[n].y.Some? && g.nodes[n].x.Some?
    then Some(LatLon(g.nodes[n].y.value, g.nodes[n].x.value))
    else None
  }

  /** A non-empty set of node ids has an element to pick. */
  lemma SomeNode(s: set<NodeId>)
    requires s != {}
    ensures exists n :: n in s
  {
    if forall n :: n !in s {
      assert false;
    }
  }

  /** `ox.distance.great_circle(lat1, lon1, lat2, lon2)`, left uninterpreted. */
  type GreatCircle = (real, real, real, real) -> real

  /** `nx.dfs_preorder_nodes(view, source)`, left uninterpreted: the depth-first preorder
      of a view of the graph from `source`. Each use says which view it stands for. */
  type Preorder = (Graph, NodeId) -> seq<NodeId>

  /** The great-circle distance between two nodes, read from their `y` and `x`;
      a missing node or coordinate is a `KeyError`. */
  function Distance(g: Graph, gc: GreatCircle, a: NodeId, b: NodeId): (r: Result<real>)
    ensures r.Ok? <==> Position(g, a).Some? && Position(g, b).Some?
    ensures r.Err? ==> r.error == KeyNotFound
  {
    var pa := Position(g, a);
    var pb := Position(g, b);
    if pa.Some? && pb.Some? then Ok(gc(pa.value.lat, pa.value.lon, pb.value.lat, pb.value.lon))
    else Err(KeyNotFound)
  }

  /** `dict.update` on one attribute: a key present in `top` wins. */
  function Override<T>(base: Option<T>, top: Option<T>): Option<T> {
    if top.Some? then top else base
  }

  function UpdateNodeAttrs(base: NodeAttrs, top: NodeAttrs): NodeAttrs {
    NodeAttrs(Override(base.x, top.x), Override(base.y, top.y),
              Override(base.tag, top.tag), Override(base.osmidOriginal, top.osmidOriginal))
  }

  function UpdateEdgeAttrs(base: EdgeAttrs, top: EdgeAttrs): EdgeAttrs {
    EdgeAttrs(Override(base.toll, top.toll), Override(base.refText, top.refText),
              Override(base.nameText, top.nameText), Override(base.highway, top.highway),
              Override(base.length, top.length))
  }

  // ---------------------------------------------------------------------
  // Keys that `add_edge(u, v)` assigns

  function IsBetween(u: NodeId, v: NodeId): Edge -> bool {
    (e: Edge) => e.u == u && e.v == v
  }

  function KeysBetween(edges: seq<Edge>, u: NodeId, v: NodeId): set<nat> {
    set e | e in edges && e.u == u && e.v == v :: e.key
  }

  ghost function KeyBound(used: set<nat>): (b: nat)
    ensures forall k :: k in used ==> k < b
    decreases used
  {
    if used == {} then 0
    else
      var k :| k in used;
      var rest := KeyBound(used - {k});
      assert forall j :: j in used ==> j == k || j in used - {k};
      if k < rest then rest else k + 1
  }

  /** The first key at or after `k` that is not in `used`. */
  function FirstFreeKey(used: set<nat>, k: nat): (r: nat)
    ensures r !in used && k <= r
    decreases if k <= KeyBound(used) then KeyBound(used) - k else 0
  {
    if k in used then FirstFreeKey(used, k + 1) else k
  }

  /** The key networkx picks for a new `(u, v)` edge: starting from the number
      of existing `(u, v)` edges, the first key not yet used between them. */
  function NewEdgeKey(edges: seq<Edge>, u: NodeId, v: NodeId): (k: nat)
    ensures forall e :: e in edges && e.u == u && e.v == v ==> e.key != k
    ensures |Filter(edges, IsBetween(u, v))| <= k
  {
    FirstFreeKey(KeysBetween(edges, u, v), |Filter(edges, IsBetween(u, v))|)
  }

  // ---------------------------------------------------------------------
  // Graph updates, as functions on values

  /** `G.add_node(n, **attrs)`: a new node gets `attrs`; an existing one is updated. */
  function WithNode(g: Graph, n: NodeId, attrs: NodeAttrs): Graph {
    Graph(g.nodes[n := if n in g.nodes then UpdateNodeAttrs(g.nodes[n], attrs) else attrs], g.edges)
  }

  /** `G.add_edge(u, v, **attrs)` without a key: missing endpoints are added bare. */
  function WithEdge(g: Graph, u: NodeId, v: NodeId, attrs: EdgeAttrs): Graph {
    var withU := if u in g.nodes then g.nodes else g.nodes[u := NoNodeAttrs];
    var withV := if v in withU then withU else withU[v := NoNodeAttrs];
    Graph(withV, g.edges + [Edge(u, v, NewEdgeKey(g.edges, u, v), attrs)])
  }

  function IsNotSlot(u: NodeId, v: NodeId, key: nat): Edge -> bool {
    (e: Edge) => !(e.u == u && e.v == v && e.key == key)
  }

  /** `G.remove_edge(u, v, key)`. */
  function WithoutEdge(g: Graph, u: NodeId, v: NodeId, key: nat): Graph {
    Graph(g.nodes, Filter(g.edges, IsNotSlot(u, v, key)))
  }

  /** `G.nodes[n]['tag'] = t`. */
  function WithTag(g: Graph, n: NodeId, t: TagValue): Graph
    requires n in g.nodes
  {
    Graph(g.nodes[n := g.nodes[n].(tag := Some(t))], g.edges)
  }

  lemma WithEdgeWellFormed(g: Graph, u: NodeId, v: NodeId, attrs: EdgeAttrs)
    requires WellFormed(g)
    ensures WellFormed(WithEdge(g, u, v, attrs))
  {
    var r := WithEdge(g, u, v, attrs);
    var e := Edge(u, v, NewEdgeKey(g.edges, u, v), attrs);
    assert r.edges == g.edges + [e];
    forall i, j | 0 <= i < j < |r.edges| ensures !SameSlot(r.edges[i], r.edges[j]) {
      if j == |g.edges| {
        assert r.edges[i] in g.edges;
      }
    }
  }

  lemma WithoutEdgeWellFormed(g: Graph, u: NodeId, v: NodeId, key: nat)
    requires WellFormed(g)
    ensures WellFormed(WithoutEdge(g, u, v, key))
  {
    SubsequenceUniqueSlots(g.edges, IsNotSlot(u, v, key));
  }

  /** Dropping edges keeps the slots unique. */
  lemma {:induction false} SubsequenceUniqueSlots(edges: seq<Edge>, p: Edge -> bool)
    requires UniqueSlots(edges)
    ensures UniqueSlots(Filter(edges, p))
  {
    if edges != [] {
      var init := edges[..|edges| - 1];
      var last := edges[|edges| - 1];
      assert UniqueSlots(init) by {
        forall i, j | 0 <= i < j < |init| ensures !SameSlot(init[i], init[j]) {
          assert init[i] == edges[i] && init[j] == edges[j];
        }
      }
      SubsequenceUniqueSlots(init, p);
      var r := Filter(edges, p);
      var fi := Filter(init, p);
      forall i, j | 0 <= i < j < |r| ensures !SameSlot(r[i], r[j]) {
        if j == |fi| {
          assert r[i] in init;
          var m :| 0 <= m < |init| && init[m] == r[i];
          assert edges[m] == r[i];
          assert r[j] == last == edges[|edges| - 1];
        } else {
          assert r[i] == fi[i] && r[j] == fi[j];
        }
      }
    }
  }

  // ---------------------------------------------------------------------
  // Union of graphs

  /** The `(u, v, key)` slots that the edges occupy. */
  function Slots(edges: seq<Edge>): set<(NodeId, NodeId, nat)> {
    set e | e in edges :: SlotOf(e)
  }

  function SlotOf(e: Edge): (NodeId, NodeId, nat) {
    (e.u, e.v, e.key)
  }

  /** `G.add_edge(u, v, key, **attrs)`: the edge in slot `(u, v, key)`, if there is one, has
      its attributes updated; otherwise the edge is appended. Missing endpoints are added bare. */
  function WithKeyedEdge(g: Graph, e: Edge): Graph {
    var withU := if e.u in g.nodes then g.nodes else g.nodes[e.u := NoNodeAttrs];
    var withV := if e.v in withU then withU else withU[e.v := NoNodeAttrs];
    if SlotOf(e) in Slots(g.edges) then
      Graph(withV, seq(|g.edges|, k requires 0 <= k < |g.edges| =>
        if SameSlot(g.edges[k], e) then g.edges[k].(attrs := UpdateEdgeAttrs(g.edges[k].attrs, e.attrs)) else g.edges[k]))
    else Graph(withV, g.edges + [e])
  }

  /** `G.add_edges_from(edges)` with keys and attributes, one edge after another. */
  function WithKeyedEdges(g: Graph, edges: seq<Edge>): Graph
    decreases |edges|
  {
    if edges == [] then g else WithKeyedEdge(WithKeyedEdges(g, edges[..|edges| - 1]), edges[|edges| - 1])
  }

  /** `R.add_nodes_from(G.nodes(data=True))`: nodes of `top` are added, or have their
      attributes updated by `top`'s. */
  function WithNodesOf(base: map<NodeId, NodeAttrs>, top: map<NodeId, NodeAttrs>): (r: map<NodeId, NodeAttrs>)
    ensures forall n :: n in r <==> n in base || n in top
    ensures forall n :: n in base && n !in top ==> r[n] == base[n]
    ensures forall n :: n !in base && n in top ==> r[n] == top[n]
  {
    map n | n in base.Keys + top.Keys ::
      if n !in top then base[n] else if n in base then UpdateNodeAttrs(base[n], top[n]) else top[n]
  }

  /** The step of `nx.compose_all`: graph `g` added to `r`, its nodes and then its edges. */
  function Compose(r: Graph, g: Graph): Graph {
    WithKeyedEdges(Graph(WithNodesOf(r.nodes, g.nodes), r.edges), g.edges)
  }

  /** Adding a keyed edge occupies its slot and keeps every other slot, and keeps every node. */
  lemma WithKeyedEdgeSlots(g: Graph, e: Edge)
    ensures Slots(WithKeyedEdge(g, e).edges) == Slots(g.edges) + {SlotOf(e)}
    ensures forall n :: n in WithKeyedEdge(g, e).nodes <==> n in g.nodes || n == e.u || n == e.v
    ensures forall n :: n in g.nodes ==> WithKeyedEdge(g, e).nodes[n] == g.nodes[n]
  {
    var r := WithKeyedEdge(g, e);
    if SlotOf(e) in Slots(g.edges) {
      forall s | s in Slots(r.edges) ensures s in Slots(g.edges) {
        var f :| f in r.edges && SlotOf(f) == s;
        var k :| 0 <= k < |r.edges| && r.edges[k] == f;
        assert g.edges[k] in g.edges;
      }
      forall s | s in Slots(g.edges) ensures s in Slots(r.edges) {
        var f :| f in g.edges && SlotOf(f) == s;
        var k :| 0 <= k < |g.edges| && g.edges[k] == f;
        assert r.edges[k] in r.edges && SlotOf(r.edges[k]) == s;
      }
    } else {
      assert r.edges[|g.edges|] == e;
      forall s | s in Slots(r.edges) ensures s in Slots(g.edges) + {SlotOf(e)} {
        var f :| f in r.edges && SlotOf(f) == s;
        assert f in g.edges || f == e;
      }
    }
  }

  /** A keyed edge in a free slot is appended as it is. */
  lemma WithKeyedEdgeFresh(g: Graph, e: Edge)
    requires SlotOf(e) !in Slots(g.edges)
    ensures WithKeyedEdge(g, e).edges == g.edges + [e]
  {
  }

  lemma WithKeyedEdgeWellFormed(g: Graph, e: Edge)
    requires WellFormed(g)
    ensures WellFormed(WithKeyedEdge(g, e))
  {
    var r := WithKeyedEdge(g, e);
    WithKeyedEdgeSlots(g, e);
    if SlotOf(e) in Slots(g.edges) {
      forall f | f in r.edges ensures f.u in r.nodes && f.v in r.nodes {
        var k :| 0 <= k < |r.edges| && r.edges[k] == f;
        assert g.edges[k] in g.edges;
      }
      forall i, j | 0 <= i < j < |r.edges| ensures !SameSlot(r.edges[i], r.edges[j]) {
        assert SameSlot(r.edges[i], g.edges[i]) && SameSlot(r.edges[j], g.edges[j]);
      }
    } else {
      forall i, j | 0 <= i < j < |r.edges| ensures !SameSlot(r.edges[i], r.edges[j]) {
        if j == |g.edges| {
          assert r.edges[i] in g.edges;
        }
      }
    }
  }

  /** Adding keyed edges keeps every node with its attributes, and keeps the graph well formed. */
  lemma {:induction false} WithKeyedEdgesWellFormed(g: Graph, edges: seq<Edge>)
    ensures forall n :: n in g.nodes ==> n in WithKeyedEdges(g, edges).nodes && WithKeyedEdges(g, edges).nodes[n] == g.nodes[n]
    ensures WellFormed(g) ==> WellFormed(WithKeyedEdges(g, edges))
    decreases |edges|
  {
    if edges != [] {
      var init := edges[..|edges| - 1];
      WithKeyedEdgesWellFormed(g, init);
      WithKeyedEdgeSlots(WithKeyedEdges(g, init), edges[|edges| - 1]);
      if WellFormed(g) {
        WithKeyedEdgeWellFormed(WithKeyedEdges(g, init), edges[|edges| - 1]);
      }
    }
  }

  /** Adding keyed edges occupies their slots and keeps every other slot. */
  lemma {:induction false} WithKeyedEdgesSlots(g: Graph, edges: seq<Edge>)
    ensures Slots(WithKeyedEdges(g, edges).edges) == Slots(g.edges) + Slots(edges)
    decreases |edges|
  {
    if edges != [] {
      var init := edges[..|edges| - 1];
      var last := edges[|edges| - 1];
      WithKeyedEdgesSlots(g, init);
      WithKeyedEdgeSlots(WithKeyedEdges(g, init), last);
      assert edges == init + [last];
      assert Slots(edges) == Slots(init) + {SlotOf(last)};
    }
  }

  /** A node that adding keyed edges brings in is an endpoint of one of them. */
  lemma {:induction false} WithKeyedEdgesOnlyNodes(g: Graph, edges: seq<Edge>)
    ensures forall n :: n in WithKeyedEdges(g, edges).nodes ==>
      n in g.nodes || exists e :: e in edges && (n == e.u || n == e.v)
    decreases |edges|
  {
    if edges != [] {
      var init := edges[..|edges| - 1];
      var last := edges[|edges| - 1];
      WithKeyedEdgesOnlyNodes(g, init);
      WithKeyedEdgeSlots(WithKeyedEdges(g, init), last);
      forall n | n in WithKeyedEdges(g, edges).nodes
        ensures n in g.nodes || exists e :: e in edges && (n == e.u || n == e.v)
      {
        if n !in WithKeyedEdges(g, init).nodes {
          assert last in edges;
        } else if n !in g.nodes {
          var e :| e in init && (n == e.u || n == e.v);
          assert e in edges;
        }
      }
    }
  }

  /** Edges in free, distinct slots are appended in order. */
  lemma {:induction false} WithKeyedEdgesFresh(g: Graph, edges: seq<Edge>)
    requires UniqueSlots(edges) && Slots(g.edges) !! Slots(edges)
    ensures WithKeyedEdges(g, edges).edges == g.edges + edges
    decreases |edges|
  {
    if edges != [] {
      var init := edges[..|edges| - 1];
      var last := edges[|edges| - 1];
      UniqueSlotsInit(edges);
      assert Slots(init) <= Slots(edges);
      WithKeyedEdgesFresh(g, init);
      WithKeyedEdgesSlots(g, init);
      WithKeyedEdgeFresh(WithKeyedEdges(g, init), last);
    }
  }

  /** In edges with distinct slots, the last edge's slot is not among the others'. */
  lemma UniqueSlotsInit(edges: seq<Edge>)
    requires edges != [] && UniqueSlots(edges)
    ensures UniqueSlots(edges[..|edges| - 1])
    ensures Slots(edges) == Slots(edges[..|edges| - 1]) + {SlotOf(edges[|edges| - 1])}
    ensures SlotOf(edges[|edges| - 1]) !in Slots(edges[..|edges| - 1])
  {
    var init := edges[..|edges| - 1];
    assert edges == init + [edges[|edges| - 1]];
    forall f | f in init ensures SlotOf(f) != SlotOf(edges[|edges| - 1]) {
      var k :| 0 <= k < |init| && init[k] == f;
      assert !SameSlot(edges[k], edges[|edges| - 1]);
    }
  }

  // ---------------------------------------------------------------------
  // Relabelling

  /** The new id of node `n` under `mapping`; a node the mapping leaves out keeps its id. */
  function Renamed(mapping: map<NodeId, NodeId>, n: NodeId): NodeId {
    if n in mapping then mapping[n] else n
  }

  /** No two nodes of `g` get the same new id. */
  predicate RenamingInjective(g: Graph, mapping: map<NodeId, NodeId>) {
    forall a, b :: a in g.nodes && b in g.nodes && a != b ==> Renamed(mapping, a) != Renamed(mapping, b)
  }

  /** The id reached from `n` after `k` steps along `mapping`, or `None` once a step leaves
      the mapping's keys. */
  function Follow(mapping: map<NodeId, NodeId>, n: NodeId, k: nat): Option<NodeId>
    decreases k
  {
    if k == 0 then Some(n)
    else if n in mapping then Follow(mapping, mapping[n], k - 1)
    else None
  }

  /** Read as edges from old to new id, the entries that move a node form a cycle: some moved
      node comes back to itself. No order of renaming one node at a time can then respect the
      mapping, and the in-place `nx.relabel_nodes` raises `NetworkXUnfeasible`. A cycle visits
      each key at most once, so `|mapping|` steps suffice. */
  predicate RenamingCyclic(mapping: map<NodeId, NodeId>) {
    exists n, k :: n in mapping && mapping[n] != n && 1 <= k <= |mapping| && Follow(mapping, n, k) == Some(n)
  }

  /** At least one step along the mapping ends on one of its values: the new id of the
      last key passed, `p`. */
  lemma {:induction false} FollowEndsOnValue(mapping: map<NodeId, NodeId>, n: NodeId, k: nat, m: NodeId)
    returns (p: NodeId)
    requires k >= 1 && Follow(mapping, n, k) == Some(m)
    ensures p in mapping && mapping[p] == m
    decreases k
  {
    assert n in mapping;
    if k > 1 {
      p := FollowEndsOnValue(mapping, mapping[n], k - 1, m);
    } else {
      assert Follow(mapping, mapping[n], 0) == Some(mapping[n]);
      p := n;
    }
  }

  /** A cyclic mapping renames some key to another of its keys: only mappings whose old and
      new labels overlap can fail. */
  lemma CyclicOverlaps(mapping: map<NodeId, NodeId>)
    requires RenamingCyclic(mapping)
    ensures exists p :: p in mapping && mapping[p] in mapping
  {
    var n, k :| n in mapping && mapping[n] != n && 1 <= k <= |mapping| && Follow(mapping, n, k) == Some(n);
    var p := FollowEndsOnValue(mapping, n, k, n);
  }

  function RenamedEdge(mapping: map<NodeId, NodeId>, e: Edge): Edge {
    e.(u := Renamed(mapping, e.u), v := Renamed(mapping, e.v))
  }

  /** `nx.relabel_nodes(G, mapping, copy=False)` for a renaming that merges no nodes: each
      node and each edge end takes its new id, and attributes and edge keys are kept. */
  function Relabeled(g: Graph, mapping: map<NodeId, NodeId>): Graph
    requires RenamingInjective(g, mapping)
  {
    Graph(map n | n in g.nodes :: Renamed(mapping, n) := g.nodes[n],
          seq(|g.edges|, k requires 0 <= k < |g.edges| => RenamedEdge(mapping, g.edges[k])))
  }

  /** The relabelled graph has the renamed nodes, with their attributes, and no others. */
  lemma RelabeledNodes(g: Graph, mapping: map<NodeId, NodeId>)
    requires RenamingInjective(g, mapping)
    ensures forall n :: n in g.nodes ==>
      Renamed(mapping, n) in Relabeled(g, mapping).nodes && Relabeled(g, mapping).nodes[Renamed(mapping, n)] == g.nodes[n]
    ensures forall m :: m in Relabeled(g, mapping).nodes ==> exists n :: n in g.nodes && Renamed(mapping, n) == m
  {
  }

  /** Relabelling keeps the graph well formed. */
  lemma RelabeledWellFormed(g: Graph, mapping: map<NodeId, NodeId>)
    requires WellFormed(g) && RenamingInjective(g, mapping)
    ensures WellFormed(Relabeled(g, mapping))
  {
    var r := Relabeled(g, mapping);
    RelabeledNodes(g, mapping);
    forall e | e in r.edges ensures e.u in r.nodes && e.v in r.nodes {
      var k :| 0 <= k < |r.edges| && r.edges[k] == e;
      assert g.edges[k] in g.edges;
    }
    forall i, j | 0 <= i < j < |r.edges| ensures !SameSlot(r.edges[i], r.edges[j]) {
      assert g.edges[i] in g.edges && g.edges[j] in g.edges;
      assert !SameSlot(g.edges[i], g.edges[j]);
    }
  }

  // ---------------------------------------------------------------------
  // The mutable graph object

  class MultiDiGraph {
    var nodes: map<NodeId, NodeAttrs>
    var edges: seq<Edge>

    function Snapshot(): Graph
      reads this
    {
      Graph(nodes, edges)
    }

    ghost predicate Valid()
      reads this
    {
      WellFormed(Snapshot())
    }

    /** `nx.MultiDiGraph()`. */
    constructor ()
      ensures Valid() && Snapshot() == Graph(map[], [])
    {
      nodes := map[];
      edges := [];
    }

    /** `nx.MultiDiGraph(g)`: a fresh graph object holding a copy of `g`. */
    constructor Copy(g: Graph)
      requires WellFormed(g)
      ensures Valid() && Snapshot() == g
    {
      nodes := g.nodes;
      edges := g.edges;
    }

    method AddNode(n: NodeId, attrs: NodeAttrs)
      requires Valid()
      modifies this
      ensures Valid()
      ensures Snapshot() == WithNode(old(Snapshot()), n, attrs)
    {
      nodes := nodes[n := if n in nodes then UpdateNodeAttrs(nodes[n], attrs) else attrs];
    }

    method AddEdge(u: NodeId, v: NodeId, attrs: EdgeAttrs) returns (key: nat)
      requires Valid()
      modifies this
      ensures Valid()
      ensures key == NewEdgeKey(old(edges), u, v)
      ensures Snapshot() == WithEdge(old(Snapshot()), u, v, attrs)
    {
      WithEdgeWellFormed(Snapshot(), u, v, attrs);
      key := NewEdgeKey(edges, u, v);
      if u !in nodes {
        nodes := nodes[u := NoNodeAttrs];
      }
      if v !in nodes {
        nodes := nodes[v := NoNodeAttrs];
      }
      edges := edges + [Edge(u, v, key, attrs)];
    }

    /** `G.remove_edge(u, v, key)`; the graph library refuses a missing edge. */
    method RemoveEdge(u: NodeId, v: NodeId, key: nat)
      requires Valid()
      requires exists e :: e in edges && e.u == u && e.v == v && e.key == key
      modifies this
      ensures Valid()
      ensures Snapshot() == WithoutEdge(old(Snapshot()), u, v, key)
    {
      WithoutEdgeWellFormed(Snapshot(), u, v, key);
      edges := Filter(edges, IsNotSlot(u, v, key));
    }

    /** `nx.relabel_nodes(self, mapping, copy=False)`: a cyclic mapping is refused before any
        node moves; otherwise, for a renaming that merges no nodes, every node is renamed. */
    method Relabel(mapping: map<NodeId, NodeId>) returns (outcome: Outcome)
      requires Valid() && (RenamingCyclic(mapping) || RenamingInjective(Snapshot(), mapping))
      modifies this
      ensures Valid()
      ensures outcome.Fail? <==> RenamingCyclic(mapping)
      ensures outcome.Fail? ==> outcome.error == Unresolvable && Snapshot() == old(Snapshot())
      ensures outcome.Pass? ==> Snapshot() == Relabeled(old(Snapshot()), mapping)
    {
      if RenamingCyclic(mapping) {
        return Fail(Unresolvable);
      }
      RelabeledWellFormed(Snapshot(), mapping);
      nodes, edges := Relabeled(Snapshot(), mapping).nodes, Relabeled(Snapshot(), mapping).edges;
      outcome := Pass;
    }

    method SetTag(n: NodeId, t: TagValue)
      requires Valid()
      requires n in nodes
      modifies this
      ensures Valid()
      ensures Snapshot() == WithTag(old(Snapshot()), n, t)
    {
      nodes := nodes[n := nodes[n].(tag := Some(t))];
    }
  }
}
