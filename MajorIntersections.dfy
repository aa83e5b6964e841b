/** `find_major_intersections`: the nodes with enough out-edges on major roads. */
module MajorIntersections {
  import opened Results
  import opened Sequences
  import opened RoadGraph

  /** The highway types that count as major. */
  predicate IsMajorType(h: string) {
    h == "motorway" || h == "trunk" || h == "primary" || h == "secondary"
  }

  /** A `highway` value that is a major type, or a list holding at least one. */
  predicate IsMajorHighway(h: Option<Highway>) {
    match h
    case Some(HighwayName(name)) => IsMajorType(name)
    case Some(HighwayList(names)) => exists i :: 0 <= i < |names| && IsMajorType(names[i])
    case _ => false
  }

  function IsMajorOutEdgeOf(n: NodeId): Edge -> bool {
    (e: Edge) => e.u == n && IsMajorHighway(e.attrs.highway)
  }

  /** The number of out-edges of `n` on a major road (parallel edges count separately). */
  function MajorOutDegree(g: Graph, n: NodeId): nat {
    Count(g.edges, IsMajorOutEdgeOf(n))
  }

  /** The nodes that have at least `minDegree` major out-edges. */
  ghost function MajorIntersectionSet(g: Graph, minDegree: int): set<NodeId> {
    set n | n in g.nodes && MajorOutDegree(g, n) >= minDegree
  }

  /** The node loop of `find_major_intersections`. */
  method FindMajorIntersections(g: Graph, minDegree: int) returns (r: set<NodeId>)
    ensures forall n :: n in r <==> n in g.nodes && MajorOutDegree(g, n) >= minDegree
  {
    r := {};
    var remaining := g.nodes.Keys;
    while remaining != {}
      invariant remaining <= g.nodes.Keys
      invariant forall m :: m in r <==>
        m in g.nodes && m !in remaining && MajorOutDegree(g, m) >= minDegree
      decreases remaining
    {
      SomeNode(remaining);
      var n :| n in remaining;
      var majorCount := MajorOutDegree(g, n);
      if majorCount >= minDegree {
        r := r + {n};
      }
      remaining := remaining - {n};
    }
  }

  /** Major out-edges are out-edges, so a node never has more of them than its out-degree. */
  lemma {:induction false} MajorOutDegreeAtMostOutDegree(edges: seq<Edge>, n: NodeId)
    ensures Count(edges, IsMajorOutEdgeOf(n)) <= |OutEdges(edges, n)|
  {
    if edges != [] {
      MajorOutDegreeAtMostOutDegree(edges[..|edges| - 1], n);
    }
  }

  /** Raising the threshold can only shrink the result. */
  lemma ThresholdMonotone(g: Graph, lo: int, hi: int)
    requires lo <= hi
    ensures MajorIntersectionSet(g, hi) <= MajorIntersectionSet(g, lo)
  {
  }

  /** A threshold of at most zero keeps every node; one above a node's out-degree drops it. */
  lemma ThresholdExtremes(g: Graph, minDegree: int, n: NodeId)
    requires n in g.nodes
    ensures minDegree <= 0 ==> n in MajorIntersectionSet(g, minDegree)
    ensures minDegree > OutDegree(g, n) ==> n !in MajorIntersectionSet(g, minDegree)
  {
    MajorOutDegreeAtMostOutDegree(g.edges, n);
  }
}
