/** Python's `max`/`min` over a component with the key
    `(y if 'y' in node else inf, x if 'x' in node else inf)`: tuples compare
    lexicographically, a missing coordinate ranks above every real, and both
    built-ins return the FIRST element whose key is extreme. */
module NodeRanking {
  import opened Results
  import opened RoadGraph

  /** A coordinate, or `float('inf')` for a missing one. */
  datatype Rank = Finite(value: real) | Infinite

  predicate RankLess(a: Rank, b: Rank) {
    match (a, b)
    case (Finite(x), Finite(y)) => x < y
    case (Finite(_), Infinite) => true
    case (Infinite, _) => false
  }

  function RankOf(c: Option<real>): Rank {
    if c.Some? then Finite(c.value) else Infinite
  }

  /** The sort key of a node: its latitude rank, then its longitude rank. */
  datatype NodeKey = NodeKey(y: Rank, x: Rank)

  function KeyOf(a: NodeAttrs): NodeKey {
    NodeKey(RankOf(a.y), RankOf(a.x))
  }

  /** Lexicographic tuple comparison. */
  predicate KeyLess(a: NodeKey, b: NodeKey) {
    RankLess(a.y, b.y) || (a.y == b.y && RankLess(a.x, b.x))
  }

  lemma KeyLessIsStrictOrder()
    ensures forall a :: !KeyLess(a, a)
    ensures forall a, b, c :: KeyLess(a, b) && KeyLess(b, c) ==> KeyLess(a, c)
    ensures forall a, b :: a != b ==> KeyLess(a, b) || KeyLess(b, a)
  {
    forall a: NodeKey, b: NodeKey, c: NodeKey | KeyLess(a, b) && KeyLess(b, c) ensures KeyLess(a, c) {
    }
    forall a: NodeKey, b: NodeKey | a != b ensures KeyLess(a, b) || KeyLess(b, a) {
    }
  }

  predicate InGraph(g: Graph, comp: seq<NodeId>) {
    forall i :: 0 <= i < |comp| ==> comp[i] in g.nodes
  }

  /** The weakly connected components come from the graph: non-empty lists of its nodes. */
  ghost predicate ValidComponents(nodes: map<NodeId, NodeAttrs>, comps: seq<seq<NodeId>>) {
    forall k :: 0 <= k < |comps| ==> comps[k] != [] && InGraph(Graph(nodes, []), comps[k])
  }

  lemma InGraphAnyEdges(nodes: map<NodeId, NodeAttrs>, edges: seq<Edge>, comp: seq<NodeId>)
    requires InGraph(Graph(nodes, []), comp)
    ensures InGraph(Graph(nodes, edges), comp)
  {
  }

  function Key(g: Graph, n: NodeId): NodeKey
    requires n in g.nodes
  {
    KeyOf(g.nodes[n])
  }

  /** The position of `max(component, key=...)`: the first node whose key no other
      node exceeds, so every earlier node ranks strictly lower. */
  function MaxIndex(g: Graph, comp: seq<NodeId>): (r: nat)
    requires comp != [] && InGraph(g, comp)
    ensures r < |comp|
    ensures forall i :: 0 <= i < |comp| ==> !KeyLess(Key(g, comp[r]), Key(g, comp[i]))
    ensures forall j :: 0 <= j < r ==> KeyLess(Key(g, comp[j]), Key(g, comp[r]))
  {
    if |comp| == 1 then 0
    else
      var init := comp[..|comp| - 1];
      assert InGraph(g, init);
      var best := MaxIndex(g, init);
      assert forall i :: 0 <= i < |init| ==> comp[i] == init[i];
      KeyLessIsStrictOrder();
      if KeyLess(Key(g, comp[best]), Key(g, comp[|comp| - 1])) then |comp| - 1 else best
  }

  /** The position of `min(component, key=...)`: the first node whose key exceeds no
      other node's, so every earlier node ranks strictly higher. */
  function MinIndex(g: Graph, comp: seq<NodeId>): (r: nat)
    requires comp != [] && InGraph(g, comp)
    ensures r < |comp|
    ensures forall i :: 0 <= i < |comp| ==> !KeyLess(Key(g, comp[i]), Key(g, comp[r]))
    ensures forall j :: 0 <= j < r ==> KeyLess(Key(g, comp[r]), Key(g, comp[j]))
  {
    if |comp| == 1 then 0
    else
      var init := comp[..|comp| - 1];
      assert InGraph(g, init);
      var best := MinIndex(g, init);
      assert forall i :: 0 <= i < |init| ==> comp[i] == init[i];
      KeyLessIsStrictOrder();
      if KeyLess(Key(g, comp[|comp| - 1]), Key(g, comp[best])) then |comp| - 1 else best
  }

  function MaxNode(g: Graph, comp: seq<NodeId>): NodeId
    requires comp != [] && InGraph(g, comp)
  {
    comp[MaxIndex(g, comp)]
  }

  function MinNode(g: Graph, comp: seq<NodeId>): NodeId
    requires comp != [] && InGraph(g, comp)
  {
    comp[MinIndex(g, comp)]
  }

  /** With `max`, a node without latitude outranks every node with one, so one is picked
      whenever the component has one. */
  lemma MaxPrefersMissingLatitude(g: Graph, comp: seq<NodeId>, i: nat)
    requires comp != [] && InGraph(g, comp) && i < |comp|
    requires g.nodes[comp[i]].y.None?
    ensures g.nodes[MaxNode(g, comp)].y.None?
  {
  }

  /** With `min`, a node without latitude is picked only when no node has one. */
  lemma MinAvoidsMissingLatitude(g: Graph, comp: seq<NodeId>)
    requires comp != [] && InGraph(g, comp)
    ensures g.nodes[MinNode(g, comp)].y.None? ==>
      forall i :: 0 <= i < |comp| ==> g.nodes[comp[i]].y.None?
  {
  }
}
