/** `get_mapping_of_merged_nodes`: for each node of a consolidated graph, the list
    of original node ids it stands for. */
module MergedNodes {
  import opened Results
  import opened RoadGraph

  /** A scalar `osmid_original` becomes a one-element list; a list is kept as is. */
  function AsList(o: OsmidValue): (ids: seq<int>)
    ensures o.OsmidScalar? ==> ids == [o.id]
    ensures o.OsmidList? ==> ids == o.ids
  {
    match o
    case OsmidScalar(id) => [id]
    case OsmidList(ids) => ids
  }

  predicate LacksOriginal(g: Graph, n: NodeId)
    requires n in g.nodes
  {
    g.nodes[n].osmidOriginal.None?
  }

  /** Node `n` exists in `g` and carries both `x` and `y`. */
  predicate HasCoordinates(g: Graph, n: NodeId) {
    n in g.nodes && g.nodes[n].x.Some? && g.nodes[n].y.Some?
  }

  /** Some node of the consolidated graph has no `osmid_original`. */
  predicate SomeLacksOriginal(simplified: Graph) {
    exists n :: n in simplified.nodes && LacksOriginal(simplified, n)
  }

  /** The debug loop's reads for consolidated node `n` listing `oldIds` all succeed: `x` and
      `y` of `n` itself (read once per listed id, so only when there is one), and of each
      listed id in the original graph. */
  predicate NodeCoordinatesFound(simplified: Graph, original: Graph, n: NodeId, oldIds: seq<int>) {
    (oldIds != [] ==> HasCoordinates(simplified, n)) &&
    forall oid :: oid in oldIds ==> HasCoordinates(original, oid)
  }

  /** The debug loop finds every coordinate it reads. */
  predicate CoordinatesFound(simplified: Graph, original: Graph) {
    forall n :: n in simplified.nodes && simplified.nodes[n].osmidOriginal.Some? ==>
      NodeCoordinatesFound(simplified, original, n, AsList(simplified.nodes[n].osmidOriginal.value))
  }

  /** `get_mapping_of_merged_nodes(G, G_simplified)`. The mapping loop aborts on a node
      without `osmid_original`; the debug loop after it raises `KeyError` on a coordinate it
      cannot find. Otherwise each consolidated node maps to its original ids as a list. */
  method MergedNodeMapping(original: Graph, simplified: Graph) returns (r: Result<map<NodeId, seq<int>>>)
    ensures r.Err? <==> SomeLacksOriginal(simplified) || !CoordinatesFound(simplified, original)
    ensures r.Err? ==> (r.error == MissingAttribute <==> SomeLacksOriginal(simplified))
    ensures r.Err? ==> r.error == MissingAttribute || r.error == KeyNotFound
    ensures r.Ok? ==> r.value.Keys == simplified.nodes.Keys
    ensures r.Ok? ==> forall n :: n in r.value ==>
      r.value[n] == AsList(simplified.nodes[n].osmidOriginal.value)
  {
    var mapping: map<NodeId, seq<int>> := map[];
    var remaining := simplified.nodes.Keys;
    while remaining != {}
      invariant remaining <= simplified.nodes.Keys
      invariant mapping.Keys == simplified.nodes.Keys - remaining
      invariant forall m :: m in mapping ==> !LacksOriginal(simplified, m)
      invariant forall m :: m in mapping ==>
        mapping[m] == AsList(simplified.nodes[m].osmidOriginal.value)
      decreases remaining
    {
      SomeNode(remaining);
      var n :| n in remaining;
      var originalIds := simplified.nodes[n].osmidOriginal;
      if originalIds.None? {
        return Err(MissingAttribute);
      }
      mapping := mapping[n := AsList(originalIds.value)];
      remaining := remaining - {n};
    }
    var outcome := ReadCoordinates(original, simplified, mapping);
    if outcome.Fail? {
      return Err(outcome.error);
    }
    r := Ok(mapping);
  }

  /** The debug loop over a complete mapping: every consolidated node, then every original
      id it lists, reading both nodes' `x` and `y`. */
  method ReadCoordinates(original: Graph, simplified: Graph, mapping: map<NodeId, seq<int>>)
    returns (outcome: Outcome)
    requires mapping.Keys == simplified.nodes.Keys
    requires forall m :: m in mapping ==>
      !LacksOriginal(simplified, m) && mapping[m] == AsList(simplified.nodes[m].osmidOriginal.value)
    ensures outcome.Pass? <==> CoordinatesFound(simplified, original)
    ensures outcome.Fail? ==> outcome.error == KeyNotFound
  {
    var remaining := mapping.Keys;
    while remaining != {}
      invariant remaining <= mapping.Keys
      invariant forall n :: n in mapping && n !in remaining ==>
        NodeCoordinatesFound(simplified, original, n, mapping[n])
      decreases remaining
    {
      SomeNode(remaining);
      var n :| n in remaining;
      var found := ReadNodeCoordinates(original, simplified, n, mapping[n]);
      if !found {
        return Fail(KeyNotFound);
      }
      remaining := remaining - {n};
    }
    outcome := Pass;
  }

  /** The inner debug loop for node `n`: for each of `oldIds`, the coordinates of `n` and of
      that original node. */
  method ReadNodeCoordinates(original: Graph, simplified: Graph, n: NodeId, oldIds: seq<int>)
    returns (found: bool)
    ensures found <==> NodeCoordinatesFound(simplified, original, n, oldIds)
  {
    var j := 0;
    while j < |oldIds|
      invariant j <= |oldIds|
      invariant j > 0 ==> HasCoordinates(simplified, n)
      invariant forall k :: 0 <= k < j ==> HasCoordinates(original, oldIds[k])
    {
      if !HasCoordinates(simplified, n) || !HasCoordinates(original, oldIds[j]) {
        assert oldIds[j] in oldIds;
        return false;
      }
      j := j + 1;
    }
    return true;
  }

  /** Every original id of a consolidated node is listed under it, whichever form it took. */
  lemma OriginalIdsListed(o: OsmidValue, id: int)
    ensures id in AsList(o) <==> (o.OsmidScalar? && o.id == id) || (o.OsmidList? && id in o.ids)
  {
  }
}
