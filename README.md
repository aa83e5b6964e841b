# Route matching for GTA Commuter Buddy, in Dafny

This project models the graph-topology and sequence logic of the route-matching
pipeline of GTA Commuter Buddy, and proves what that logic guarantees. The pipeline
turns a toll-road route and its alternatives, each a polyline, into small directed path
graphs anchored on a road network, and then joins those path graphs into one network.
The model covers:

- toll tagging of the road network and tag filtering to an induced subgraph
  (`TollTagging`);
- selection of major intersections (`MajorIntersections`);
- the merged-node mapping of a consolidated network (`MergedNodes`);
- the chain simplifier (`ChainSimplifier`);
- the `max`/`min` root choice keyed on latitude and longitude (`NodeRanking`);
- the toll-graph cycle corrector (`CycleCorrector`);
- the two versions of the per-component depth-first listing (`Components`);
- the matching of polyline points to network nodes (`RouteMatching`);
- the path-graph builder, the carriageway classifier and the carriageway choice
  (`RouteGraphBuilder`);
- the connector generator, the depth-first relabelling and the graph union, in both
  copies of the connecting-routes module (`ConnectingRoutes`).

A road network is `RoadGraph.Graph`: a map from node id to attributes (optional `x`,
`y`, `tag` and `osmid_original`), plus the keyed edges `(u, v, key)` in insertion
order. Where the Python code changes a graph object in place, the model uses the class
`RoadGraph.MultiDiGraph`. Its methods (`AddNode`, `AddEdge`, `RemoveEdge`, `Relabel`,
`SetTag`) are specified by the value functions `WithNode`, `WithEdge`, `WithoutEdge`,
`Relabeled` and `WithTag`. `Relabel` follows the in-place `nx.relabel_nodes`, which
refuses a mapping whose moved nodes form a cycle (`RoadGraph.RenamingCyclic`) with
`NetworkXUnfeasible` before it renames anything. Each loop of the source is a `method` with loop invariants,
proved equal to a function of its inputs (a fold). The properties are then proved as
lemmas about that function.

The model reads `assert False`, an `assert` that fails, a `KeyError` and an `IndexError`
all as a `Results.Failure` carried by `Err` or `Fail`. `Results.Failure` names each
failure kind.

The calls into libraries whose code is not part of this model are parameters:

- `ox.distance.great_circle` is `GreatCircle`;
- `ox.distance.nearest_nodes` is either its outputs for the polyline or `NearestNode`;
- `nx.dfs_preorder_nodes` is `Preorder`;
- `nx.weakly_connected_components` is a sequence of components;
- the iteration order of `toll_graph.nodes` is `tollOrder`.

The model assumes only what the code itself relies on. For example, the chain
lemmas about lengths assume that distances are non-negative.

Where the code and its documentation disagree, the model follows the code:

- `simplify_node_chain` compares each node with the last node *kept*, not with the one
  just before it: `prev_node` advances only on a keep. The length it records is the sum
  of those distances since the last keep.
- The root of `correct_toll_graph` is a `max` whose key ranks a missing coordinate as
  `+inf`. A node without latitude is therefore picked *first*, not last
  (`NodeRanking.MaxPrefersMissingLatitude`). The `min` of the south-west variant picks
  it last (`NodeRanking.MinAvoidsMissingLatitude`).
- The id guard of `get_connecting_routes` asserts that *both* coordinates differ. It
  therefore fails when either coordinate is shared, not only when both are
  (`ConnectingRoutes.NearestToGuard`).
- Both copies of `get_connecting_routes` have the call to `relabel_nodes_in_dfs_order`
  commented out. The model therefore keeps relabelling separate from the connector and
  union path.
- `correct_toll_graph` relies on `graph.out_edges(node, keys=True)`. The removed edges,
  the kept edge and the failure do not depend on the order of that iteration, so the
  model walks out-edges in edge-list order.

## Model

| member | source | states |
|---|---|---|
| TollTagging.TagTollNodes | src/helpers/get_and_manipulate_graph.py:45-85 | returns as toll set the endpoints of the edges classified toll, as non-toll set the endpoints of the rest, and the three branch counters; the graph afterwards has every tag overwritten from the toll set, nothing else changed; `tag_graph` at get_and_manipulate_graph.py:39-80 is the same code |
| TollTagging.ClassifyEdges | src/helpers/get_and_manipulate_graph.py:51-62 | the edge loop computes exactly the two endpoint sets and the count of edges taking each toll branch |
| TollTagging.ClassifyEdge | src/helpers/get_and_manipulate_graph.py:52-62 | each edge takes exactly one branch in priority order (toll flag, then `ref` with 407, then `name` with 407, else non-toll); that branch adds both endpoints to one set and bumps one counter |
| TollTagging.OverwriteTags | src/helpers/get_and_manipulate_graph.py:78-81 | the node loop leaves the graph equal to all tags reset and then toll nodes marked |
| TollTagging.CountersAddUp | get_and_manipulate_graph.py:46-58 | the three counters add up to the number of toll-classified edges |
| TollTagging.EndpointSets | src/helpers/get_and_manipulate_graph.py:51-62 | both endpoints of a toll-classified edge are in the toll set, and both endpoints of any other edge are in the non-toll set, so a node can be in both |
| TollTagging.TagIff | src/helpers/get_and_manipulate_graph.py:78-81 | after tagging, a node's tag is `'toll_route'` iff it is an endpoint of some toll-classified edge, and `None` otherwise, isolated nodes included |
| TollTagging.TaggingKeepsTheRest | src/helpers/get_and_manipulate_graph.py:78-81 | tagging keeps the node ids, the edges and every attribute but `tag` |
| TollTagging.SubgraphCopy | src/helpers/get_and_manipulate_graph.py:103-104 | the induced subgraph: the nodes of the subset that are in the graph, with their attributes, and exactly the edges with both ends kept |
| TollTagging.FilterTaggedNodes | src/helpers/get_and_manipulate_graph.py:99-101 | a node is kept iff its tag equals the filter, and an edge is kept iff both its ends are kept; the copy at get_and_manipulate_graph.py:86-104 is the same |
| TollTagging.SubgraphCopyWellFormed | src/helpers/get_and_manipulate_graph.py:103-104 | the induced subgraph of a well-formed graph is well formed |
| TollTagging.SubgraphOfSubgraph | src/helpers/get_and_manipulate_graph.py:103-104 | taking the induced subgraph twice is taking it on the intersection |
| TollTagging.FilterTaggedIdempotent | src/helpers/get_and_manipulate_graph.py:99-101 | filtering by a tag twice is filtering once |
| MajorIntersections.FindMajorIntersections | src/helpers/get_and_manipulate_graph.py:106-125 | a node is returned iff it has at least `min_degree` out-edges whose `highway` is a major type or a list holding one |
| MajorIntersections.MajorOutDegreeAtMostOutDegree | src/helpers/get_and_manipulate_graph.py:113-120 | a node never has more major out-edges than out-edges |
| MajorIntersections.ThresholdMonotone | src/helpers/get_and_manipulate_graph.py:122-125 | raising `min_degree` can only shrink the result |
| MajorIntersections.ThresholdExtremes | src/helpers/get_and_manipulate_graph.py:122-125 | a threshold of at most 0 keeps every node; one above a node's out-degree drops it |
| MergedNodes.AsList | src/helpers/get_and_manipulate_graph.py:163-167 | a scalar `osmid_original` becomes a one-element list; a list is kept as it is |
| MergedNodes.MergedNodeMapping | src/helpers/get_and_manipulate_graph.py:149-182 | fails iff some node lacks `osmid_original` (with `MissingAttribute`) or the debug loop misses a coordinate it reads (with `KeyNotFound`, only when no node lacks `osmid_original`); otherwise the keys are exactly the simplified graph's nodes, each mapped to its ids as a list |
| MergedNodes.ReadCoordinates | src/helpers/get_and_manipulate_graph.py:171-174 | the debug loop over the mapping passes iff every consolidated node that lists an id has `x` and `y`, and so does every listed id in the original graph; otherwise `KeyNotFound` |
| MergedNodes.ReadNodeCoordinates | src/helpers/get_and_manipulate_graph.py:172-174 | the inner loop for one node succeeds iff all of its reads find their coordinates |
| MergedNodes.OriginalIdsListed | src/helpers/get_and_manipulate_graph.py:163-167 | an id is listed under a node iff it is that node's scalar or a member of its list |
| ChainSimplifier.SimplifyNodeChain | src/helpers/get_and_manipulate_graph.py:184-206 | the loop returns exactly the value `Simplified`, about which the lemmas below are proved |
| ChainSimplifier.StepKeeps | src/helpers/get_and_manipulate_graph.py:189-205 | one iteration preserves the invariant `Kept`: kept nodes at increasing input positions, spaced edges, and every dropped node too close to the kept node before it |
| ChainSimplifier.KeepStep | src/helpers/get_and_manipulate_graph.py:200-205 | a node at least `min_dist` from the last kept node is kept, together with the edge from that node |
| ChainSimplifier.SkipStep | src/helpers/get_and_manipulate_graph.py:194-201 | a node closer than `min_dist` is dropped: the kept positions stay as they were and the invariant `Kept` still holds |
| ChainSimplifier.RunKeeps | src/helpers/get_and_manipulate_graph.py:189-205 | the whole loop preserves `Kept` |
| ChainSimplifier.SimplifiedStructure | src/helpers/get_and_manipulate_graph.py:184-206 | the result is a subsequence of the input that starts with `in_order_node_ids[0]`; there is one edge fewer than nodes; edge k joins kept nodes k and k+1, which are at least `min_dist` apart; every dropped node is closer than `min_dist` to the kept node before it |
| ChainSimplifier.RunLengthsCover | src/helpers/get_and_manipulate_graph.py:200-205 | with non-negative distances, the running length stays non-negative and each recorded length covers its edge's distance |
| ChainSimplifier.EdgeLengthAtLeastDistance | src/helpers/get_and_manipulate_graph.py:194-205 | with non-negative distances, each recorded edge length is at least the distance between the two kept nodes |
| ChainSimplifier.SingleNode | src/helpers/get_and_manipulate_graph.py:185-192 | a one-element input yields `([n], [])` |
| ChainSimplifier.RunOkPositions | src/helpers/get_and_manipulate_graph.py:194-199 | a loop that succeeds found both coordinates on `prev_node` and on every node still to come |
| ChainSimplifier.RunErrPosition | src/helpers/get_and_manipulate_graph.py:194-199 | a loop that fails met a node without coordinates, and fails with `KeyError` |
| ChainSimplifier.SimplifiedFails | src/helpers/get_and_manipulate_graph.py:184-199 | fails iff the input is empty (`IndexError`) or has two or more nodes one of which lacks coordinates (`KeyError`) |
| ChainSimplifier.RunKeepsFarChain | src/helpers/get_and_manipulate_graph.py:189-205 | a chain whose consecutive nodes are all far enough apart is kept whole |
| ChainSimplifier.SimplifyIdempotent | src/helpers/get_and_manipulate_graph.py:184-206 | rerunning on its own node output succeeds and returns the same nodes |
| NodeRanking.KeyLessIsStrictOrder | src/helpers/get_and_manipulate_graph.py:221-226 | the comparison of `(y, x)` keys, with `+inf` for a missing coordinate, is a strict total order |
| NodeRanking.MaxIndex | src/helpers/get_and_manipulate_graph.py:221-226 | `max(component, key=...)` is the first node whose key no node exceeds, so earlier nodes are all strictly smaller |
| NodeRanking.MinIndex | get_and_manipulate_graph.py:125-129 | `min(component, key=...)` is the first node whose key exceeds no node's, so earlier nodes are all strictly greater |
| NodeRanking.MaxPrefersMissingLatitude | src/helpers/get_and_manipulate_graph.py:221-226 | when some node lacks a latitude, the `max` root lacks one too |
| NodeRanking.MinAvoidsMissingLatitude | get_and_manipulate_graph.py:125-129 | the `min` root lacks a latitude only when every node of the component does |
| Components.TheOnly | src/helpers/get_and_manipulate_graph.py:256-261 | succeeds iff exactly one node of the component satisfies the test, and returns it; otherwise `InvalidTopology` |
| Components.TheOnlyUnique | src/helpers/get_and_manipulate_graph.py:256-261 | the node found is the only one of the component that satisfies the test |
| Components.GetConnectedComponentsDfs | src/helpers/get_and_manipulate_graph.py:247-266 | the loop returns exactly the value `StartOrders` (whose success and contents `StartOrdersOk` and `StartOrdersValue` state) |
| Components.OrdersFromOk | src/helpers/get_and_manipulate_graph.py:255-264 | the loop from component k on succeeds iff each of those components has a unique start node |
| Components.OrdersFromValue | src/helpers/get_and_manipulate_graph.py:255-264 | on success, list m is the preorder from component m's start node |
| Components.StartOrdersOk | src/helpers/get_and_manipulate_graph.py:247-266 | it succeeds iff every component has exactly one node with in-degree 0 and out-degree 1, and fails with `InvalidTopology` otherwise |
| Components.StartOrdersValue | src/helpers/get_and_manipulate_graph.py:247-266 | one list per component, in component order, each the preorder from that component's start node |
| Components.StartOrdersBeginAtStart | src/helpers/get_and_manipulate_graph.py:261-264 | when the preorder begins at its source, each list begins with its component's start node |
| Components.GetConnectedComponentsDfsFromSouthWest | get_and_manipulate_graph.py:106-139 | one list per component, list k being the preorder from its `min` root restricted to component k |
| Components.SouthWestOrderSpec | get_and_manipulate_graph.py:125-137 | each list holds exactly the component's nodes that the preorder reaches, none more often than the preorder lists it, and begins with the root when the preorder does |
| CycleCorrector.CorrectTollGraph | src/helpers/get_and_manipulate_graph.py:208-240 | the in-place loops leave the nodes as they were and the edges equal to `Corrected`, with the same outcome |
| CycleCorrector.PruneComponent | src/helpers/get_and_manipulate_graph.py:228-240 | the loop over one preorder matches `PruneNodes` |
| CycleCorrector.PruneOutEdges | src/helpers/get_and_manipulate_graph.py:229-240 | one node's pass matches `PruneNode` and changes only the edges |
| CycleCorrector.CollectRemovals | src/helpers/get_and_manipulate_graph.py:229-237 | with a successor, the scan collects every out-edge except the first one to the successor; without one (`dfs_nodes[j + 1]` past the end), it fails iff the node has an out-edge |
| CycleCorrector.RemoveEdges | src/helpers/get_and_manipulate_graph.py:239-240 | removing the collected edges leaves exactly the edges not collected, in order |
| CycleCorrector.FirstTo | src/helpers/get_and_manipulate_graph.py:231-237 | the edge kept is an edge of the node to the successor |
| CycleCorrector.FirstToNone | src/helpers/get_and_manipulate_graph.py:231-237 | no first edge to the successor means no edge to it at all |
| CycleCorrector.ScanIsFilter | src/helpers/get_and_manipulate_graph.py:231-237 | the `visited` scan (a repeated target or a non-successor target is removed) is the filter "all but the first edge to the successor" |
| CycleCorrector.RemovalSet | src/helpers/get_and_manipulate_graph.py:229-240 | an edge is removed iff it leaves the node and is not its first edge to the successor; the removals are distinct edges of the graph |
| CycleCorrector.PruneNodeRemoves | src/helpers/get_and_manipulate_graph.py:229-240 | one node's pass only removes edges and keeps the graph well formed |
| CycleCorrector.PruneNodesRemoves | src/helpers/get_and_manipulate_graph.py:228-240 | the same for a whole preorder |
| CycleCorrector.NoOutEdgesStays | src/helpers/get_and_manipulate_graph.py:239-240 | a node without out-edges keeps none while edges are only removed |
| CycleCorrector.PruneNodesFails | src/helpers/get_and_manipulate_graph.py:236 | a preorder pass fails only with `IndexError` at its last node, which still has an out-edge |
| CycleCorrector.PruneNodesPasses | src/helpers/get_and_manipulate_graph.py:228-240 | a preorder pass that completes leaves its last node without out-edges |
| CycleCorrector.KeptOut | src/helpers/get_and_manipulate_graph.py:231-237 | a node keeps at most one out-edge, and only one to its successor |
| CycleCorrector.KeptOutLocal | src/helpers/get_and_manipulate_graph.py:231-237 | what a node keeps depends only on its own out-edges |
| CycleCorrector.PruneNodeSelf | src/helpers/get_and_manipulate_graph.py:229-240 | a node's pass leaves it exactly `KeptOut`: its first out-edge to the successor, or nothing |
| CycleCorrector.PruneNodeOther | src/helpers/get_and_manipulate_graph.py:229-240 | a node's pass leaves every other node's out-edges alone |
| CycleCorrector.PruneNodesOther | src/helpers/get_and_manipulate_graph.py:228-240 | a preorder pass leaves the out-edges of a node it does not list alone |
| CycleCorrector.PruneNodesSelf | src/helpers/get_and_manipulate_graph.py:228-240 | a node listed once in a preorder ends the pass with exactly its first out-edge to its successor |
| CycleCorrector.CorrectFromVisits | src/helpers/get_and_manipulate_graph.py:218-227 | the component loop walks one preorder per component until it stops, and all of them when it completes |
| CycleCorrector.CorrectFromHead | src/helpers/get_and_manipulate_graph.py:218-227 | the first preorder walked is that of the first component visited |
| CycleCorrector.CorrectFromRemoves | src/helpers/get_and_manipulate_graph.py:218-240 | the component loop only removes edges and keeps the graph well formed |
| CycleCorrector.CorrectFromFails | src/helpers/get_and_manipulate_graph.py:218-240 | the component loop fails only at the end of the last preorder walked |
| CycleCorrector.EmptiedStays | src/helpers/get_and_manipulate_graph.py:218-240 | a last node emptied by its pass stays empty through the later passes |
| CycleCorrector.CorrectFromPasses | src/helpers/get_and_manipulate_graph.py:218-240 | on success, the last node of every preorder walked has no out-edge left |
| CycleCorrector.CorrectFromOther | src/helpers/get_and_manipulate_graph.py:218-240 | a node no preorder lists keeps its out-edges |
| CycleCorrector.CorrectFromKeepsFirst | src/helpers/get_and_manipulate_graph.py:218-240 | on success, a node listed once over all preorders keeps exactly its first original out-edge to its successor |
| CycleCorrector.PassOfRemoves | src/helpers/get_and_manipulate_graph.py:221-240 | each component's pass only removes edges and keeps the graph well formed |
| CycleCorrector.PassOfFailsAtEnd | src/helpers/get_and_manipulate_graph.py:221-240 | each component's pass fails only at the end of its preorder |
| CycleCorrector.PassOfEmptiesLast | src/helpers/get_and_manipulate_graph.py:221-240 | each component's pass that completes empties its last node |
| CycleCorrector.PassOfKeepsOther | src/helpers/get_and_manipulate_graph.py:221-240 | each component's pass leaves unlisted nodes alone |
| CycleCorrector.PassOfKeepsFirst | src/helpers/get_and_manipulate_graph.py:221-240 | each component's pass leaves a node listed once with its first edge to its successor |
| CycleCorrector.CorrectedOnlyRemoves | src/helpers/get_and_manipulate_graph.py:208-240 | the edges left are a sub-multiset of the original edges, so nothing is added, and they form a well-formed graph over the same nodes |
| CycleCorrector.CorrectedFails | src/helpers/get_and_manipulate_graph.py:236 | the call fails only with the `IndexError` of a last preorder node that still has an out-edge |
| CycleCorrector.CorrectedPasses | src/helpers/get_and_manipulate_graph.py:218-240 | on success every component but the first was walked, and the last node of each preorder has no out-edge |
| CycleCorrector.CorrectedKeepsUnvisited | src/helpers/get_and_manipulate_graph.py:218-220 | a node that no preorder lists, such as one of component 0 that no later preorder reaches, keeps all its out-edges |
| CycleCorrector.CorrectedKeepsFirst | src/helpers/get_and_manipulate_graph.py:228-240 | on success, a node listed once over all preorders keeps exactly `KeptOut`: its first original out-edge to `dfs_nodes[j + 1]`, or nothing when there is none, so parallel duplicates and off-preorder edges are gone |
| RouteMatching.GetRouteNodes | build_route_graph.py:107-145 | the loop returns exactly the value `RouteNodes` |
| RouteMatching.BestMapInvariant | build_route_graph.py:131-138 | every `best_map` entry is a point within `max_dist` whose nearest node is that node, at its distance; every point within range finds its node's entry no farther away, and strictly nearer when the entry's point comes later |
| RouteMatching.SelectedEntries | build_route_graph.py:141 | each listed pair is a `best_map` entry for its own nearest node |
| RouteMatching.SelectedIncreasing | build_route_graph.py:141 | the pairs are in strictly increasing point order |
| RouteMatching.SelectedComplete | build_route_graph.py:141 | every `best_map` entry is listed |
| RouteMatching.SelectionEmpty | build_route_graph.py:141-143 | the selection is empty iff no point lies within `max_dist` |
| RouteMatching.RouteNodesFails | build_route_graph.py:110-145 | fails iff the polyline is empty, the oracle outputs have the wrong length (`MalformedInput`), or no point lies within `max_dist` (`NoMatchFound`) |
| RouteMatching.RouteNodesSound | build_route_graph.py:132-145 | every pair `(i, n)` has `nearest_nodes[i] == n` and `distances[i] <= max_dist` |
| RouteMatching.RouteNodesFirstClosest | build_route_graph.py:136-138 | each node's point has the smallest distance among its points within range, and ties go to the earliest point |
| RouteMatching.RouteNodesComplete | build_route_graph.py:132-138 | every node that is the nearest node of a point within `max_dist` is matched |
| RouteMatching.RouteNodesOrdered | build_route_graph.py:141-145 | the result is in strictly increasing point order, and no node appears twice |
| RouteGraphBuilder.SortedKeys | build_route_graph.py:152 | `sorted(route_nodes.keys())` lists exactly the keys of `route_nodes` |
| RouteGraphBuilder.SortedKeysIncreasing | build_route_graph.py:152 | the sorted keys are in strictly ascending order |
| RouteGraphBuilder.SortedKeysSize | build_route_graph.py:152 | there are as many sorted keys as keys, so each appears once |
| RouteGraphBuilder.BuildRouteGraph | build_route_graph.py:147-169 | returns a fresh graph equal to the value `RouteGraph`, or its failure; the base graph object is only read |
| RouteGraphBuilder.BuildOver | build_route_graph.py:151-167 | the loop over the sorted keys is the fold of the loop body |
| RouteGraphBuilder.AddRoutePoint | build_route_graph.py:153-167 | one iteration changes the graph as the loop body function `AddPoint` says |
| RouteGraphBuilder.FoldErrStays | build_route_graph.py:152-167 | an aborted iteration aborts the build with the same error |
| RouteGraphBuilder.AddPointOk | build_route_graph.py:153-166 | an iteration fails with `KeyError` iff the mapped node, or a coordinate needed for the length, is missing |
| RouteGraphBuilder.AddPointNodes | build_route_graph.py:155 | after key i, the nodes are the first i+1 keys, each carrying its mapped node's attributes |
| RouteGraphBuilder.AddPointEdges | build_route_graph.py:156-166 | after key i, there are i edges, and edge j joins key j to key j+1 with the great-circle length between their nodes |
| RouteGraphBuilder.AddPointBuilt | build_route_graph.py:153-167 | one iteration carries the invariant `Built` from i keys to i+1 |
| RouteGraphBuilder.RouteGraphFails | build_route_graph.py:147-169 | fails, with `KeyError`, iff a mapped node is missing from the base graph or lacks a coordinate needed for a length |
| RouteGraphBuilder.RouteGraphBuilt | build_route_graph.py:147-169 | on success, the graph satisfies `Built` for all the keys |
| RouteGraphBuilder.RouteGraphNodes | build_route_graph.py:152-155 | its nodes are exactly the keys of `route_nodes`, each carrying the attributes of the mapped base node |
| RouteGraphBuilder.RouteGraphEdges | build_route_graph.py:156-167 | it has n−1 edges for n keys, one per consecutive pair of sorted keys, from the smaller key to the larger, with `length` the distance between their mapped nodes |
| RouteGraphBuilder.Heading | build_route_graph.py:187-192 | a failed classification is `AmbiguousDirection` |
| RouteGraphBuilder.ClassifyIsHeading | build_route_graph.py:187-192 | when its start and end nodes both have coordinates, a component's class is the heading from the start to the end: south-west to north-east when both `y` and `x` grow, north-east to south-west when both shrink, `AmbiguousDirection` otherwise |
| RouteGraphBuilder.ClassifySwap | build_route_graph.py:187-192 | swapping start and end swaps the class, and keeps a failure the same failure |
| RouteGraphBuilder.ComponentDirection | build_route_graph.py:175-184 | a component fails with `InvalidTopology` exactly when it lacks a unique start node (in 0, out 1) or a unique end node (in 1, out 0) |
| RouteGraphBuilder.ComponentDirectionOk | build_route_graph.py:175-192 | a component that classifies has a start node and an end node with coordinates, and its class is the heading from the one to the other |
| RouteGraphBuilder.ComponentDirectionIsHeading | build_route_graph.py:175-192 | conversely, unique start and end nodes with coordinates give the heading between them |
| RouteGraphBuilder.GetGraphDirectionalComponents | build_route_graph.py:171-196 | returns exactly the value `DirectionalComponents` |
| RouteGraphBuilder.ClassifyComponents | build_route_graph.py:174-196 | the loop returns exactly `Pick` of the fold over the components |
| RouteGraphBuilder.ClassifiedStaysErr | build_route_graph.py:174-192 | a component that fails aborts the loop with its error |
| RouteGraphBuilder.ClassifiedUpToFails | build_route_graph.py:174-192 | the loop succeeds iff every component classifies, and otherwise fails as the first that does not |
| RouteGraphBuilder.LastOfClassKeeps | build_route_graph.py:187-190 | a component of the other class leaves a variable as it was |
| RouteGraphBuilder.ClassifiedUpToLast | build_route_graph.py:187-190 | each variable holds the last component of its class so far, `None` when there is none |
| RouteGraphBuilder.PickFails | build_route_graph.py:194-196 | after a loop that classified everything, it fails (`MissingComponent`) iff a class never occurred |
| RouteGraphBuilder.DirectionalComponentsFails | build_route_graph.py:171-196 | it fails as the first component without a unique start or end or a monotone diagonal, else iff a class is missing |
| RouteGraphBuilder.DirectionalComponentsLast | build_route_graph.py:186-196 | on success, the two components are the last one of each class, so a later one overwrites an earlier one |
| RouteGraphBuilder.ChooseDirectional | build_route_graph.py:198-209 | a success is one of the two carriageway graphs and needs a non-empty polyline; it fails with `IndexError` exactly on the empty polyline, and otherwise can fail only with `AmbiguousDirection` |
| RouteGraphBuilder.ChooseDirectionalSpec | build_route_graph.py:198-209 | `sw_to_ne` iff the last point is strictly north and east of the first, `ne_to_sw` iff strictly south and west, otherwise it fails; an empty polyline is an `IndexError` |
| RouteGraphBuilder.ChooseDirectionalReversed | build_route_graph.py:204-209 | reversing the polyline swaps the choice |
| RouteGraphBuilder.NorthEastwardEnds | build_route_graph.py:204-205 | a polyline moving north-east at each step ends north-east of its start |
| RouteGraphBuilder.ChooseDirectionalMonotone | build_route_graph.py:204-209 | a monotone north-east polyline chooses `sw_to_ne`, and its reverse `ne_to_sw` |
| RouteGraphBuilder.ChooseDirectionalClosed | build_route_graph.py:204-209 | a polyline that ends where it starts fails |
| ConnectingRoutes.NearestTo | get_connecting_routes.py:82-87 | a success means the toll node and the node found both have `x` and `y`; the node found is the oracle's nearest node of the other graph, with no distance cap; a failure is `KeyError` or the id guard |
| ConnectingRoutes.NearestToGuard | get_connecting_routes.py:86-87 | the guard fails iff the ids overlap (nearest id in the toll graph, or toll id in the route graph) and the two nodes share a coordinate |
| ConnectingRoutes.GetConnectingRoutes | get_connecting_routes.py:76-93 | the nested loops return exactly the value `ConnectingRoutes`; src/get_connecting_routes.py:30-47 is the same code |
| ConnectingRoutes.ForStaysErr | get_connecting_routes.py:81-92 | a failure in the inner loop aborts it with the same error |
| ConnectingRoutes.UpToStaysErr | get_connecting_routes.py:80-92 | a failure for one toll node aborts the outer loop with the same error |
| ConnectingRoutes.ConnectorsForValue | get_connecting_routes.py:81-92 | the inner loop succeeds iff the toll node passes against each other graph; it appends 2·(graphs−1) connectors, `(nearest, toll)` then `(toll, nearest)` for each graph in order |
| ConnectingRoutes.ConnectorsUpToValue | get_connecting_routes.py:80-92 | the outer loop succeeds iff every toll node so far passes; there are 2·(graphs−1) connectors per toll node, paired |
| ConnectingRoutes.ConnectorsForPaired | get_connecting_routes.py:91-92 | each connector at an even position is followed by its reverse |
| ConnectingRoutes.ConnectingRoutesFails | get_connecting_routes.py:76-93 | an empty list fails (`route_graphs[0]`); otherwise it succeeds iff every toll node passes against every other graph |
| ConnectingRoutes.NodeOrderLength | get_connecting_routes.py:80 | an iteration order of the toll graph's nodes has exactly one position per node |
| ConnectingRoutes.ConnectingRoutesShape | get_connecting_routes.py:78-93 | exactly 2·|toll nodes|·(len(route_graphs)−1) connectors, paired, and the list is closed under reversing a connector |
| ConnectingRoutes.PairedClosed | get_connecting_routes.py:91-92 | a paired list holds the reverse of each of its connectors |
| ConnectingRoutes.ConnectorsUpToBlocks | get_connecting_routes.py:80-92 | block m of the list is the inner loop's result for toll node m |
| ConnectingRoutes.ConnectingRoutesValue | get_connecting_routes.py:80-92 | entry k of block m is the expected connector for toll node m and route graph k/2+1, towards the toll node when k is even and away from it when k is odd |
| ConnectingRoutes.IdMapKeysAndRange | get_connecting_routes.py:71 | the keys of the id map are the preorder's nodes, and the new ids lie in `[i·10^6, i·10^6 + len)` |
| ConnectingRoutes.IdMapInjective | get_connecting_routes.py:71 | no two nodes get the same new id |
| ConnectingRoutes.IdMapPosition | get_connecting_routes.py:71 | in a preorder without repeats, position j gets `i·10^6 + j` |
| ConnectingRoutes.IdMapPositions | get_connecting_routes.py:71 | the same for every position at once |
| ConnectingRoutes.IdMapsDisjoint | get_connecting_routes.py:71 | the ids of two route graphs never meet when each has at most 10^6 preorder nodes |
| ConnectingRoutes.RelabelStepSpec | get_connecting_routes.py:66-74 | the result of one iteration in every case: `InvalidTopology` when the graph has no unique node of in-degree 0; for the unique start node, `Unresolvable` (`NetworkXUnfeasible`) when its id map is cyclic, `LabelCollision` when the map is not cyclic but would merge two nodes, and otherwise the graph relabelled by the id map, together with the map; each error occurs only in its own case |
| ConnectingRoutes.RelabelStepCovers | get_connecting_routes.py:67-74 | when the preorder from the start node reaches every node, the id map merges no nodes, and the iteration fails only if the id map is cyclic; otherwise it yields a well-formed graph whose ids lie in graph i's block |
| ConnectingRoutes.FreshIdMapAcyclic | get_connecting_routes.py:70-74 | when no node of the preorder already holds an id of graph i's block, the id map is not cyclic |
| ConnectingRoutes.SwapMappingUnresolvable | get_connecting_routes.py:70-74 | two nodes with an edge from the start node 1 to node 0 give graph 0 the id map {1: 0, 0: 1}, and the iteration fails with `Unresolvable` |
| ConnectingRoutes.RelabelNodesInDfsOrder | get_connecting_routes.py:65-74 | relabels the graphs in place, in order, collecting one id map per graph, and stops at the first failure; graphs not reached are unchanged; src/get_connecting_routes.py:19-28 is the same code |
| ConnectingRoutes.RelabelEach | get_connecting_routes.py:66-74 | the loop over the graph objects, for any step function equal to the iteration |
| ConnectingRoutes.RelabelGraph | get_connecting_routes.py:67-74 | one iteration on a graph object: the graph and the id map are the iteration's result, and a failure (including a cyclic id map refused by the relabelling) leaves the graph as it was |
| ConnectingRoutes.BuildConnectedGraph | get_connecting_routes.py:200-207 | returns a fresh graph and the connectors, equal to the value `ConnectedGraph`, or its failure; src/get_connecting_routes.py:100-107 is the same code |
| ConnectingRoutes.AddConnectorEdges | get_connecting_routes.py:204-205 | the loop adds one keyless edge per connector, in order |
| ConnectingRoutes.ComposeUpToSpec | get_connecting_routes.py:202 | the union is well formed and holds every node of every route graph |
| ConnectingRoutes.ComposeUpToOnlyNodes | get_connecting_routes.py:202 | the union of well-formed graphs holds no other node |
| ConnectingRoutes.ComposeUpToSlots | get_connecting_routes.py:202 | the union occupies exactly the `(u, v, key)` slots that the graphs occupy |
| ConnectingRoutes.ComposeUpToDisjoint | get_connecting_routes.py:202 | with disjoint ids, the union's edges are the graphs' edges, one graph after another |
| ConnectingRoutes.NextSlotsFree | get_connecting_routes.py:202 | with disjoint ids, the next graph's slots are free in the union so far |
| ConnectingRoutes.ComposeUpToDisjointNodes | get_connecting_routes.py:202 | with disjoint ids, the union keeps each node's attributes |
| ConnectingRoutes.WithConnectorsKeeps | get_connecting_routes.py:204-205 | connectors between existing nodes keep the graph well formed, keep its nodes and append to its edges |
| ConnectingRoutes.WithConnectorsEdges | get_connecting_routes.py:204-205 | edge m appended joins connector m's first node to its second, with no attributes |
| ConnectingRoutes.ConnectorsUpToEnds | get_connecting_routes.py:80-92 | both ends of every connector are nodes of the route graphs |
| ConnectingRoutes.ConnectedGraphSpec | get_connecting_routes.py:200-207 | fails iff `get_connecting_routes` does, with its error; otherwise the nodes are exactly the union's nodes, and the edges are the union's edges followed by one edge per connector, in order |
| RoadGraph.OutEdges | src/helpers/get_and_manipulate_graph.py:231 | `out_edges(n)` holds exactly the edges leaving `n` |
| RoadGraph.InEdges | src/helpers/get_and_manipulate_graph.py:258 | the edges entering `n` |
| RoadGraph.Position | build_route_graph.py:162-165 | a node has a position iff it exists and has both `y` and `x` |
| RoadGraph.Distance | build_route_graph.py:161-166 | the great-circle distance exists iff both nodes have positions, and is a `KeyError` otherwise |
| RoadGraph.NewEdgeKey | build_route_graph.py:158-166 | a keyless `add_edge` picks a key not in use between `u` and `v` |
| RoadGraph.WithEdgeWellFormed | build_route_graph.py:158-166 | `add_edge` keeps the graph well formed |
| RoadGraph.WithoutEdgeWellFormed | src/helpers/get_and_manipulate_graph.py:239-240 | `remove_edge` keeps the graph well formed |
| RoadGraph.SubsequenceUniqueSlots | src/helpers/get_and_manipulate_graph.py:239-240 | dropping edges keeps `(u, v, key)` slots unique |
| RoadGraph.WithNodesOf | get_connecting_routes.py:202 | adding a graph's nodes yields the nodes of both; a node of one side only keeps its attributes |
| RoadGraph.WithKeyedEdgeSlots | get_connecting_routes.py:202 | adding a keyed edge occupies its slot, keeps every other slot and keeps every node with its attributes |
| RoadGraph.WithKeyedEdgeFresh | get_connecting_routes.py:202 | a keyed edge in a free slot is appended |
| RoadGraph.WithKeyedEdgeWellFormed | get_connecting_routes.py:202 | adding a keyed edge keeps the graph well formed |
| RoadGraph.WithKeyedEdgesWellFormed | get_connecting_routes.py:202 | adding keyed edges keeps the nodes, with their attributes, and well-formedness |
| RoadGraph.WithKeyedEdgesSlots | get_connecting_routes.py:202 | adding keyed edges occupies exactly the old slots and theirs |
| RoadGraph.WithKeyedEdgesOnlyNodes | get_connecting_routes.py:202 | a node that adding keyed edges brings in is an endpoint of one of them |
| RoadGraph.WithKeyedEdgesFresh | get_connecting_routes.py:202 | edges in free, distinct slots are appended in order |
| RoadGraph.RelabeledNodes | get_connecting_routes.py:74 | the relabelled graph has exactly the renamed nodes, with their attributes |
| RoadGraph.RelabeledWellFormed | get_connecting_routes.py:74 | relabelling without merging keeps the graph well formed |
| RoadGraph.MultiDiGraph.constructor | build_route_graph.py:148 | a fresh empty graph |
| RoadGraph.MultiDiGraph.Copy | get_connecting_routes.py:202 | a fresh graph holding the given one |
| RoadGraph.MultiDiGraph.AddNode | build_route_graph.py:155 | the graph becomes `WithNode` of the old one |
| RoadGraph.MultiDiGraph.AddEdge | build_route_graph.py:158-166 | the graph becomes `WithEdge` of the old one, and the key returned is the one picked |
| RoadGraph.MultiDiGraph.RemoveEdge | src/helpers/get_and_manipulate_graph.py:239-240 | the graph becomes `WithoutEdge` of the old one; the edge must exist |
| RoadGraph.MultiDiGraph.Relabel | get_connecting_routes.py:74 | fails with `Unresolvable`, leaving the graph unchanged, iff the mapping is cyclic; otherwise the graph becomes `Relabeled` of the old one |
| RoadGraph.FollowEndsOnValue | get_connecting_routes.py:74 | a walk of at least one step along a mapping ends on one of its values |
| RoadGraph.CyclicOverlaps | get_connecting_routes.py:74 | a cyclic mapping renames some key to another key, so only mappings whose old and new labels overlap can be refused |
| RoadGraph.MultiDiGraph.SetTag | src/helpers/get_and_manipulate_graph.py:79-81 | the graph becomes `WithTag` of the old one |
| Sequences.Filter | src/helpers/get_and_manipulate_graph.py:99 | a list comprehension with a condition keeps exactly the elements that pass, in order |
| Sequences.FilterSubMultiset | src/helpers/get_and_manipulate_graph.py:239-240 | filtering never makes an element occur more often |
| Sequences.Reversed | build_route_graph.py:204 | the reverse of a polyline |

## Left out

- `download_initial_graph` (all copies), `RouteGraphBuilder.__init__` and `get_full_route_graph` are left out: they do network downloads, HTTP requests to the routing service, graphml files and polyline decoding. The post-processing glue at build_route_graph.py:93-96 goes with them.
- `merge_nearby_nodes` is left out: it is a coordinate-system projection followed by osmnx's consolidation, neither of which is visible code.
- `get_closest_point_on_polyline`, `get_closest_original_node_to_polyline`, `get_traffic_aware_durations` and src/build_traffic_routing_waypoints.py are left out: they are planar geometry on floating point, JSON loading and HTTP calls.
- Logging and printing are left out: the `logger` and `print` calls. `ClassifyEdges` returns the three counters that the source only logs. The debug loop of `get_mapping_of_merged_nodes` (src/helpers/get_and_manipulate_graph.py:170-180) is modelled only for the coordinate lookups that can raise `KeyError`; the `great_circle` distance it logs is not computed.
- The unused `node_to_rid_map` (src/helpers/get_and_manipulate_graph.py:242-245), the unused `node_to_nearest_point` (build_route_graph.py:122-128) and `prune_close_connected_toll_nodes` are left out: they affect no result.
- The ignored `origin` and `destination` parameters of `build_connected_graph` are left out.
- The scripts, timers, plotting, path helpers, argument parsing and end-to-end drivers are left out.
- Graph-level attributes are not modelled: `G_sub.graph.update`, `route_graph.graph['my_id']` and the `graph` attributes merged by `compose_all`.
- The global `id_maps` is modelled only as the list of id maps that the relabelling returns. The source appends a graph's map before relabelling it, so a graph whose relabelling raises has its map in `id_maps` as well; the model does not return that map.
- Great-circle and nearest-neighbour numerics are not modelled: they are oracle parameters. Coordinates are exact reals. The `isinstance(..., np.integer)` and `np.float64` asserts of `get_route_nodes` always hold for real oracle output and are not modelled.
- The weakly connected components, the depth-first preorders and the order in which `toll_graph.nodes` iterates are inputs. The model assumes nothing about them beyond what each lemma states.
- Node iteration order in `compose_all` is not modelled: node sets are maps, while edges keep their order.
- ConnectingRoutes.RelabelStep: a mapping that is not cyclic but would merge two nodes (possible only when the preorder misses some node) fails with `LabelCollision` instead of merging them as `nx.relabel_nodes` does.
- RoadGraph.MultiDiGraph.Relabel: it keeps the edge order through the relabelling, which the real in-place `relabel_nodes` may change.
- The interplay of the in-place edge removal with the iteration of `graph.out_edges` is not modelled: the model collects the removals first and removes them afterwards, exactly as the code does, in edge-list order.
