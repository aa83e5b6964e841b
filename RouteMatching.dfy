/** `RouteGraphBuilder.get_route_nodes`: match the points of a route polyline to
    nodes of a base graph. The nearest-node search is an oracle whose outputs,
    one nearest node and one distance per point, are parameters; what is modelled
    is the selection: each node keeps its closest point within `max_dist`, ties
    going to the earliest point, and the pairs come out in polyline order. */
module RouteMatching {
  import opened Results
  import opened RoadGraph

  /** A `best_map` entry: the smallest distance seen for a node and the point that has it. */
  datatype Best = Best(dist: real, point: nat)

  /** One selected pair: polyline point `point` is matched to base-graph node `node`. */
  datatype Match = Match(point: nat, node: NodeId)

  /** The `best_map` update for point `i`, whose nearest node is `node` at distance `dist`. */
  function Consider(best: map<NodeId, Best>, node: NodeId, dist: real, maxDist: real, i: nat)
    : map<NodeId, Best>
  {
    if dist <= maxDist && (node !in best || dist < best[node].dist) then best[node := Best(dist, i)]
    else best
  }

  /** `best_map` after the first `i` points. */
  function BestMap(nearest: seq<NodeId>, dists: seq<real>, maxDist: real, i: nat): map<NodeId, Best>
    requires i <= |nearest| && i <= |dists|
  {
    if i == 0 then map[]
    else Consider(BestMap(nearest, dists, maxDist, i - 1), nearest[i - 1], dists[i - 1], maxDist, i - 1)
  }

  /** `sorted(best_map.items(), key=point)`, restricted to the points before `j`: a point
      is listed when it is the point recorded for its nearest node. */
  function SelectedBefore(nearest: seq<NodeId>, best: map<NodeId, Best>, j: nat): seq<Match>
    requires j <= |nearest|
  {
    if j == 0 then []
    else
      var n := nearest[j - 1];
      SelectedBefore(nearest, best, j - 1) +
        (if n in best && best[n].point == j - 1 then [Match(j - 1, n)] else [])
  }

  /** The whole of `get_route_nodes`: an empty polyline cannot be unzipped, oracle outputs
      of the wrong length fail the length asserts, and an empty selection fails. */
  function RouteNodes(polyline: seq<LatLon>, nearest: seq<NodeId>, dists: seq<real>, maxDist: real)
    : Result<seq<Match>>
  {
    if polyline == [] || |nearest| != |polyline| || |dists| != |polyline| then Err(MalformedInput)
    else
      var selected := SelectedBefore(nearest, BestMap(nearest, dists, maxDist, |nearest|), |nearest|);
      if selected == [] then Err(NoMatchFound) else Ok(selected)
  }

  /** `nearest` and `dists` are what `ox.distance.nearest_nodes(..., return_dist=True)`
      returns for the points of `polyline`. */
  method GetRouteNodes(polyline: seq<LatLon>, nearest: seq<NodeId>, dists: seq<real>, maxDist: real)
    returns (r: Result<seq<Match>>)
    ensures r == RouteNodes(polyline, nearest, dists, maxDist)
  {
    if polyline == [] || |nearest| != |polyline| || |dists| != |polyline| {
      return Err(MalformedInput);
    }
    var best: map<NodeId, Best> := map[];
    var i := 0;
    while i < |nearest|
      invariant i <= |nearest|
      invariant best == BestMap(nearest, dists, maxDist, i)
    {
      var node, dist := nearest[i], dists[i];
      if dist <= maxDist {
        if node !in best || dist < best[node].dist {
          best := best[node := Best(dist, i)];
        }
      }
      i := i + 1;
    }
    var selected := SelectedBefore(nearest, best, |nearest|);
    if selected == [] {
      return Err(NoMatchFound);
    }
    r := Ok(selected);
  }

  // ---------------------------------------------------------------------
  // What `best_map` holds

  /** Node `n`'s entry is a point within `maxDist` whose nearest node is `n`, at its distance. */
  ghost predicate Recorded(nearest: seq<NodeId>, dists: seq<real>, maxDist: real, best: map<NodeId, Best>, n: NodeId)
    requires n in best
  {
    var p := best[n].point;
    p < |nearest| && p < |dists| && nearest[p] == n && dists[p] == best[n].dist && best[n].dist <= maxDist
  }

  /** Point `j` within `maxDist` has an entry for its node no farther than it, and strictly
      nearer when the entry's point comes after `j`. */
  ghost predicate Beaten(nearest: seq<NodeId>, dists: seq<real>, best: map<NodeId, Best>, j: nat)
    requires j < |nearest| && j < |dists|
  {
    var n := nearest[j];
    n in best && best[n].dist <= dists[j] && (j < best[n].point ==> best[n].dist < dists[j])
  }

  /** Every entry is recorded at a point before `i`. */
  ghost predicate AllRecorded(nearest: seq<NodeId>, dists: seq<real>, maxDist: real, best: map<NodeId, Best>, i: nat) {
    forall n :: n in best ==> best[n].point < i && Recorded(nearest, dists, maxDist, best, n)
  }

  /** Every point before `i` within `maxDist` is beaten by its node's entry. */
  ghost predicate AllBeaten(nearest: seq<NodeId>, dists: seq<real>, maxDist: real, best: map<NodeId, Best>, i: nat)
    requires i <= |nearest| && i <= |dists|
  {
    forall j :: 0 <= j < i && dists[j] <= maxDist ==> Beaten(nearest, dists, best, j)
  }

  lemma {:induction false} BestMapInvariant(nearest: seq<NodeId>, dists: seq<real>, maxDist: real, i: nat)
    requires i <= |nearest| && i <= |dists|
    ensures AllRecorded(nearest, dists, maxDist, BestMap(nearest, dists, maxDist, i), i)
    ensures AllBeaten(nearest, dists, maxDist, BestMap(nearest, dists, maxDist, i), i)
  {
    if i > 0 {
      BestMapInvariant(nearest, dists, maxDist, i - 1);
      var prev := BestMap(nearest, dists, maxDist, i - 1);
      var best := BestMap(nearest, dists, maxDist, i);
      forall n | n in best
        ensures best[n].point < i && Recorded(nearest, dists, maxDist, best, n)
      {
        if n != nearest[i - 1] || best == prev {
          assert best[n] == prev[n];
        }
      }
      forall j | 0 <= j < i && dists[j] <= maxDist
        ensures Beaten(nearest, dists, best, j)
      {
        if j < i - 1 {
          assert Beaten(nearest, dists, prev, j);
        }
      }
    }
  }

  // ---------------------------------------------------------------------
  // What the selection lists

  /** Pair `m` is a point recorded in `best` for its own nearest node. */
  ghost predicate Entry(nearest: seq<NodeId>, best: map<NodeId, Best>, m: Match) {
    m.point < |nearest| && nearest[m.point] == m.node && m.node in best && best[m.node].point == m.point
  }

  /** Strictly increasing point order. */
  ghost predicate Increasing(r: seq<Match>) {
    forall k, l :: 0 <= k < l < |r| ==> r[k].point < r[l].point
  }

  /** Each listed pair is a point before `j` recorded for its own nearest node. */
  lemma {:induction false} SelectedEntries(nearest: seq<NodeId>, best: map<NodeId, Best>, j: nat)
    requires j <= |nearest|
    ensures forall m :: m in SelectedBefore(nearest, best, j) ==> m.point < j && Entry(nearest, best, m)
  {
    if j > 0 {
      SelectedEntries(nearest, best, j - 1);
    }
  }

  /** The pairs are listed in strictly increasing point order. */
  lemma {:induction false} SelectedIncreasing(nearest: seq<NodeId>, best: map<NodeId, Best>, j: nat)
    requires j <= |nearest|
    ensures Increasing(SelectedBefore(nearest, best, j))
  {
    if j > 0 {
      SelectedIncreasing(nearest, best, j - 1);
      SelectedEntries(nearest, best, j - 1);
      var prev := SelectedBefore(nearest, best, j - 1);
      var r := SelectedBefore(nearest, best, j);
      forall k, l | 0 <= k < l < |r|
        ensures r[k].point < r[l].point
      {
        assert r[k] == prev[k];
        assert prev[k] in prev;
        if l < |prev| {
          assert r[l] == prev[l];
        }
      }
    }
  }

  /** Every entry recorded at a point before `j`, for that point's nearest node, is listed. */
  lemma {:induction false} SelectedComplete(nearest: seq<NodeId>, best: map<NodeId, Best>, j: nat)
    requires j <= |nearest|
    ensures var r := SelectedBefore(nearest, best, j);
      forall n :: n in best && best[n].point < j && nearest[best[n].point] == n ==> Match(best[n].point, n) in r
  {
    if j > 0 {
      SelectedComplete(nearest, best, j - 1);
      var prev := SelectedBefore(nearest, best, j - 1);
      var r := SelectedBefore(nearest, best, j);
      assert forall m :: m in prev ==> m in r;
    }
  }

  // ---------------------------------------------------------------------
  // Properties of `get_route_nodes`

  /** The selection is empty exactly when no point lies within `maxDist`. */
  lemma SelectionEmpty(nearest: seq<NodeId>, dists: seq<real>, maxDist: real)
    requires |nearest| == |dists|
    ensures SelectedBefore(nearest, BestMap(nearest, dists, maxDist, |nearest|), |nearest|) == [] <==>
      forall j :: 0 <= j < |dists| ==> dists[j] > maxDist
  {
    var best := BestMap(nearest, dists, maxDist, |nearest|);
    BestMapInvariant(nearest, dists, maxDist, |nearest|);
    var r := SelectedBefore(nearest, best, |nearest|);
    if j :| 0 <= j < |dists| && dists[j] <= maxDist {
      assert Beaten(nearest, dists, best, j);
      var n := nearest[j];
      assert Recorded(nearest, dists, maxDist, best, n);
      SelectedComplete(nearest, best, |nearest|);
      assert Match(best[n].point, n) in r;
    } else if r != [] {
      SelectedEntries(nearest, best, |nearest|);
      assert r[0] in r;
    }
  }

  /** It fails exactly on malformed input or when no point lies within `maxDist`. */
  lemma RouteNodesFails(polyline: seq<LatLon>, nearest: seq<NodeId>, dists: seq<real>, maxDist: real)
    ensures var r := RouteNodes(polyline, nearest, dists, maxDist);
      && (r.Err? && r.error == MalformedInput <==>
            polyline == [] || |nearest| != |polyline| || |dists| != |polyline|)
      && (r.Err? <==>
            polyline == [] || |nearest| != |polyline| || |dists| != |polyline| ||
            forall j :: 0 <= j < |dists| ==> dists[j] > maxDist)
      && (r.Err? ==> r.error == MalformedInput || r.error == NoMatchFound)
  {
    if polyline != [] && |nearest| == |polyline| && |dists| == |polyline| {
      SelectionEmpty(nearest, dists, maxDist);
    }
  }

  /** Every pair matches a point to its own nearest node, within `maxDist`. */
  lemma RouteNodesSound(polyline: seq<LatLon>, nearest: seq<NodeId>, dists: seq<real>, maxDist: real)
    ensures var r := RouteNodes(polyline, nearest, dists, maxDist);
      r.Ok? ==> forall k :: 0 <= k < |r.value| ==>
        var m := r.value[k];
        m.point < |polyline| && nearest[m.point] == m.node && dists[m.point] <= maxDist
  {
    var r := RouteNodes(polyline, nearest, dists, maxDist);
    if r.Ok? {
      var best := BestMap(nearest, dists, maxDist, |nearest|);
      BestMapInvariant(nearest, dists, maxDist, |nearest|);
      SelectedEntries(nearest, best, |nearest|);
      forall k | 0 <= k < |r.value|
        ensures r.value[k].point < |dists| && dists[r.value[k].point] <= maxDist
      {
        assert r.value[k] in r.value;
        assert Recorded(nearest, dists, maxDist, best, r.value[k].node);
      }
    }
  }

  /** Each node's point is its closest point within `maxDist`, and the earliest of those
      when several are equally close. */
  lemma RouteNodesFirstClosest(polyline: seq<LatLon>, nearest: seq<NodeId>, dists: seq<real>, maxDist: real)
    ensures var r := RouteNodes(polyline, nearest, dists, maxDist);
      r.Ok? ==> forall k, j :: 0 <= k < |r.value| && 0 <= j < |nearest| &&
                               nearest[j] == r.value[k].node && dists[j] <= maxDist ==>
        && r.value[k].point < |dists|
        && dists[r.value[k].point] <= dists[j]
        && (j < r.value[k].point ==> dists[r.value[k].point] < dists[j])
  {
    var r := RouteNodes(polyline, nearest, dists, maxDist);
    if r.Ok? {
      var best := BestMap(nearest, dists, maxDist, |nearest|);
      BestMapInvariant(nearest, dists, maxDist, |nearest|);
      SelectedEntries(nearest, best, |nearest|);
      forall k, j | 0 <= k < |r.value| && 0 <= j < |nearest| && nearest[j] == r.value[k].node && dists[j] <= maxDist
        ensures r.value[k].point < |dists| && dists[r.value[k].point] <= dists[j]
        ensures j < r.value[k].point ==> dists[r.value[k].point] < dists[j]
      {
        assert r.value[k] in r.value;
        assert Beaten(nearest, dists, best, j);
        assert Recorded(nearest, dists, maxDist, best, r.value[k].node);
      }
    }
  }

  /** Every node that is the nearest node of some point within `maxDist` is matched. */
  lemma RouteNodesComplete(polyline: seq<LatLon>, nearest: seq<NodeId>, dists: seq<real>, maxDist: real)
    ensures var r := RouteNodes(polyline, nearest, dists, maxDist);
      r.Ok? ==> forall j :: 0 <= j < |nearest| && dists[j] <= maxDist ==>
        exists k :: 0 <= k < |r.value| && r.value[k].node == nearest[j]
  {
    var r := RouteNodes(polyline, nearest, dists, maxDist);
    if r.Ok? {
      var best := BestMap(nearest, dists, maxDist, |nearest|);
      BestMapInvariant(nearest, dists, maxDist, |nearest|);
      SelectedComplete(nearest, best, |nearest|);
      forall j | 0 <= j < |nearest| && dists[j] <= maxDist
        ensures exists k :: 0 <= k < |r.value| && r.value[k].node == nearest[j]
      {
        var n := nearest[j];
        assert Beaten(nearest, dists, best, j);
        assert Recorded(nearest, dists, maxDist, best, n);
        var k :| 0 <= k < |r.value| && r.value[k] == Match(best[n].point, n);
      }
    }
  }

  /** The pairs come in strictly increasing point order, and no node is matched twice. */
  lemma RouteNodesOrdered(polyline: seq<LatLon>, nearest: seq<NodeId>, dists: seq<real>, maxDist: real)
    ensures var r := RouteNodes(polyline, nearest, dists, maxDist);
      r.Ok? ==> forall k, l :: 0 <= k < l < |r.value| ==>
        r.value[k].point < r.value[l].point && r.value[k].node != r.value[l].node
  {
    var r := RouteNodes(polyline, nearest, dists, maxDist);
    if r.Ok? {
      var best := BestMap(nearest, dists, maxDist, |nearest|);
      SelectedEntries(nearest, best, |nearest|);
      SelectedIncreasing(nearest, best, |nearest|);
      forall k, l | 0 <= k < l < |r.value|
        ensures r.value[k].node != r.value[l].node
      {
        assert r.value[k] in r.value && r.value[l] in r.value;
        assert r.value[k].point < r.value[l].point;
      }
    }
  }
}
