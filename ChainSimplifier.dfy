/** `simplify_node_chain`: thin an ordered chain of node ids so that consecutive
    kept nodes are at least `minDist` apart. The distance test is always made
    against the last KEPT node, and the length recorded on an edge is the sum of
    the distances measured since that node was kept. */
module ChainSimplifier {
  import opened Results
  import opened RoadGraph

  /** A kept edge `(prev_node, node_id, cur_len)`. */
  datatype ChainEdge = ChainEdge(from: NodeId, to: NodeId, length: real)

  /** The pair `(nodes_to_keep, edges_to_keep)`. */
  datatype Chain = Chain(nodes: seq<NodeId>, edges: seq<ChainEdge>)

  /** The loop variables after some prefix of the input has been consumed. */
  datatype ChainState = ChainState(kept: seq<NodeId>, edges: seq<ChainEdge>, prev: NodeId, curLen: real)

  /** One iteration of the loop body for `node`. */
  function Step(g: Graph, gc: GreatCircle, minDist: real, st: ChainState, node: NodeId): Result<ChainState> {
    match Distance(g, gc, st.prev, node)
    case Err(e) => Err(e)
    case Ok(d) =>
      var len := st.curLen + d;
      if d >= minDist then Ok(ChainState(st.kept + [node], st.edges + [ChainEdge(st.prev, node, len)], node, 0.0))
      else Ok(st.(curLen := len))
  }

  /** The loop from position `i` of `ids` onwards. */
  function Run(g: Graph, gc: GreatCircle, minDist: real, ids: seq<NodeId>, i: nat, st: ChainState): Result<ChainState>
    requires i <= |ids|
    decreases |ids| - i
  {
    if i == |ids| then Ok(st)
    else
      match Step(g, gc, minDist, st, ids[i])
      case Err(e) => Err(e)
      case Ok(next) => Run(g, gc, minDist, ids, i + 1, next)
  }

  /** The state after the first iteration, which only records `ids[0]` as `prev_node`. */
  function Start(first: NodeId): ChainState {
    ChainState([first], [], first, 0.0)
  }

  /** The whole function; `in_order_node_ids[0]` on an empty list is an `IndexError`. */
  function Simplified(g: Graph, gc: GreatCircle, minDist: real, ids: seq<NodeId>): Result<Chain> {
    if ids == [] then Err(IndexOutOfRange)
    else
      match Run(g, gc, minDist, ids, 1, Start(ids[0]))
      case Err(e) => Err(e)
      case Ok(st) => Ok(Chain(st.kept, st.edges))
  }

  method SimplifyNodeChain(ids: seq<NodeId>, g: Graph, gc: GreatCircle, minDist: real) returns (r: Result<Chain>)
    ensures r == Simplified(g, gc, minDist, ids)
  {
    if |ids| == 0 {
      return Err(IndexOutOfRange);
    }
    var nodesToKeep := [ids[0]];
    var edgesToKeep: seq<ChainEdge> := [];
    // the first iteration, where `prev_node is None`
    var prevNode := ids[0];
    var curLen := 0.0;
    var i := 1;
    while i < |ids|
      invariant 1 <= i <= |ids|
      invariant Run(g, gc, minDist, ids, 1, Start(ids[0]))
             == Run(g, gc, minDist, ids, i, ChainState(nodesToKeep, edgesToKeep, prevNode, curLen))
    {
      var nodeId := ids[i];
      var dist := Distance(g, gc, prevNode, nodeId);
      if dist.Err? {
        return Err(dist.error);
      }
      curLen := curLen + dist.value;
      if dist.value >= minDist {
        nodesToKeep := nodesToKeep + [nodeId];
        edgesToKeep := edgesToKeep + [ChainEdge(prevNode, nodeId, curLen)];
        prevNode := nodeId;
        curLen := 0.0;
      }
      i := i + 1;
    }
    r := Ok(Chain(nodesToKeep, edgesToKeep));
  }

  // ---------------------------------------------------------------------
  // What the loop maintains

  /** `b` is measured at least `minDist` from `a`. */
  predicate FarEnough(g: Graph, gc: GreatCircle, minDist: real, a: NodeId, b: NodeId) {
    var d := Distance(g, gc, a, b);
    d.Ok? && d.value >= minDist
  }

  /** `b` is measured, but closer than `minDist` to `a`. */
  predicate TooClose(g: Graph, gc: GreatCircle, minDist: real, a: NodeId, b: NodeId) {
    var d := Distance(g, gc, a, b);
    d.Ok? && d.value < minDist
  }

  /** After consuming `ids[..i]`, the kept nodes sit at the increasing positions `idx`
      of the input, starting at 0, and `prev` is the last of them. */
  ghost predicate KeptAt(ids: seq<NodeId>, i: nat, st: ChainState, idx: seq<nat>) {
    && 1 <= i <= |ids|
    && |idx| == |st.kept| && |st.kept| >= 1
    && idx[0] == 0
    && (forall k :: 0 <= k < |idx| ==> idx[k] < i && st.kept[k] == ids[idx[k]])
    && (forall k :: 0 < k < |idx| ==> idx[k - 1] < idx[k])
    && st.prev == st.kept[|st.kept| - 1]
  }

  /** Kept edge k joins kept nodes k and k+1, which are far enough apart. */
  ghost predicate Spaced(g: Graph, gc: GreatCircle, minDist: real, st: ChainState) {
    && |st.edges| == |st.kept| - 1
    && (forall k :: 0 <= k < |st.edges| ==>
          st.edges[k].from == st.kept[k] && st.edges[k].to == st.kept[k + 1])
    && (forall k :: 0 <= k < |st.edges| ==> FarEnough(g, gc, minDist, st.kept[k], st.kept[k + 1]))
  }

  /** Every input node dropped so far is too close to the kept node before it. */
  ghost predicate Skipped(g: Graph, gc: GreatCircle, minDist: real, ids: seq<NodeId>, i: nat,
                          st: ChainState, idx: seq<nat>)
    requires |idx| == |st.kept| && i <= |ids|
  {
    forall k, j :: 0 <= k < |idx| && idx[k] < j < i && (k + 1 < |idx| ==> j < idx[k + 1]) ==>
      TooClose(g, gc, minDist, st.kept[k], ids[j])
  }

  /** What the loop maintains after consuming `ids[..i]`. */
  ghost predicate Kept(g: Graph, gc: GreatCircle, minDist: real, ids: seq<NodeId>, i: nat,
                       st: ChainState, idx: seq<nat>)
  {
    && KeptAt(ids, i, st, idx)
    && Spaced(g, gc, minDist, st)
    && Skipped(g, gc, minDist, ids, i, st, idx)
  }

  lemma StepKeeps(g: Graph, gc: GreatCircle, minDist: real, ids: seq<NodeId>, i: nat,
                  st: ChainState, idx: seq<nat>) returns (idx': seq<nat>)
    requires Kept(g, gc, minDist, ids, i, st, idx) && i < |ids|
    requires Step(g, gc, minDist, st, ids[i]).Ok?
    ensures Kept(g, gc, minDist, ids, i + 1, Step(g, gc, minDist, st, ids[i]).value, idx')
  {
    if FarEnough(g, gc, minDist, st.prev, ids[i]) {
      idx' := idx + [i];
      KeepStep(g, gc, minDist, ids, i, st, idx);
    } else {
      idx' := idx;
      SkipStep(g, gc, minDist, ids, i, st, idx);
    }
  }

  /** A node far enough from `prev` is appended, with the edge from `prev`. */
  lemma KeepStep(g: Graph, gc: GreatCircle, minDist: real, ids: seq<NodeId>, i: nat,
                 st: ChainState, idx: seq<nat>)
    requires Kept(g, gc, minDist, ids, i, st, idx) && i < |ids|
    requires FarEnough(g, gc, minDist, st.prev, ids[i])
    ensures Step(g, gc, minDist, st, ids[i]).Ok?
    ensures Kept(g, gc, minDist, ids, i + 1, Step(g, gc, minDist, st, ids[i]).value, idx + [i])
  {
    var next := Step(g, gc, minDist, st, ids[i]).value;
    assert next.kept == st.kept + [ids[i]] && next.prev == ids[i];
    assert next.edges == st.edges + [ChainEdge(st.prev, ids[i], st.curLen + Distance(g, gc, st.prev, ids[i]).value)];
    KeepAt(ids, i, st, idx, next);
    KeepSpaced(g, gc, minDist, st, ids[i], next);
    KeepSkipped(g, gc, minDist, ids, i, st, idx, next);
  }

  lemma KeepAt(ids: seq<NodeId>, i: nat, st: ChainState, idx: seq<nat>, next: ChainState)
    requires KeptAt(ids, i, st, idx) && i < |ids|
    requires next.kept == st.kept + [ids[i]] && next.prev == ids[i]
    ensures KeptAt(ids, i + 1, next, idx + [i])
  {
  }

  lemma KeepSpaced(g: Graph, gc: GreatCircle, minDist: real, st: ChainState, node: NodeId, next: ChainState)
    requires Spaced(g, gc, minDist, st) && |st.kept| >= 1 && st.prev == st.kept[|st.kept| - 1]
    requires FarEnough(g, gc, minDist, st.prev, node)
    requires next.kept == st.kept + [node]
    requires exists len :: next.edges == st.edges + [ChainEdge(st.prev, node, len)]
    ensures Spaced(g, gc, minDist, next)
  {
  }

  lemma KeepSkipped(g: Graph, gc: GreatCircle, minDist: real, ids: seq<NodeId>, i: nat,
                    st: ChainState, idx: seq<nat>, next: ChainState)
    requires KeptAt(ids, i, st, idx) && i < |ids|
    requires Skipped(g, gc, minDist, ids, i, st, idx)
    requires next.kept == st.kept + [ids[i]]
    ensures Skipped(g, gc, minDist, ids, i + 1, next, idx + [i])
  {
    var idx' := idx + [i];
    forall k, j | 0 <= k < |idx'| && idx'[k] < j < i + 1 && (k + 1 < |idx'| ==> j < idx'[k + 1])
      ensures TooClose(g, gc, minDist, next.kept[k], ids[j])
    {
      assert k < |idx| && idx'[k] == idx[k] && next.kept[k] == st.kept[k];
    }
  }

  /** A node too close to `prev` is dropped, and only the running length grows. */
  lemma SkipStep(g: Graph, gc: GreatCircle, minDist: real, ids: seq<NodeId>, i: nat,
                 st: ChainState, idx: seq<nat>)
    requires Kept(g, gc, minDist, ids, i, st, idx) && i < |ids|
    requires Step(g, gc, minDist, st, ids[i]).Ok?
    requires !FarEnough(g, gc, minDist, st.prev, ids[i])
    ensures Kept(g, gc, minDist, ids, i + 1, Step(g, gc, minDist, st, ids[i]).value, idx)
  {
    var next := Step(g, gc, minDist, st, ids[i]).value;
    assert next.kept == st.kept && next.edges == st.edges && next.prev == st.prev;
    assert TooClose(g, gc, minDist, st.prev, ids[i]);
    forall k, j | 0 <= k < |idx| && idx[k] < j < i + 1 && (k + 1 < |idx| ==> j < idx[k + 1])
      ensures TooClose(g, gc, minDist, next.kept[k], ids[j])
    {
      if j == i {
        assert k == |idx| - 1;
      }
    }
  }

  lemma {:induction false} RunKeeps(g: Graph, gc: GreatCircle, minDist: real, ids: seq<NodeId>, i: nat,
                                    st: ChainState, idx: seq<nat>) returns (idx': seq<nat>)
    requires Kept(g, gc, minDist, ids, i, st, idx)
    requires Run(g, gc, minDist, ids, i, st).Ok?
    ensures Kept(g, gc, minDist, ids, |ids|, Run(g, gc, minDist, ids, i, st).value, idx')
    decreases |ids| - i
  {
    if i == |ids| {
      idx' := idx;
    } else {
      var mid := StepKeeps(g, gc, minDist, ids, i, st, idx);
      idx' := RunKeeps(g, gc, minDist, ids, i + 1, Step(g, gc, minDist, st, ids[i]).value, mid);
    }
  }

  /** What a successful run returns: the kept nodes are the input at increasing
      positions `idx` starting at 0, there is one edge fewer than nodes, edge k joins
      kept nodes k and k+1, consecutive kept nodes are at least `minDist` apart, and
      every dropped node is closer than `minDist` to the kept node before it. */
  lemma SimplifiedStructure(g: Graph, gc: GreatCircle, minDist: real, ids: seq<NodeId>) returns (idx: seq<nat>)
    requires Simplified(g, gc, minDist, ids).Ok?
    ensures var c := Simplified(g, gc, minDist, ids).value;
      && |idx| == |c.nodes| >= 1 && |c.edges| == |c.nodes| - 1
      && idx[0] == 0 && c.nodes[0] == ids[0]
      && (forall k :: 0 <= k < |idx| ==> idx[k] < |ids| && c.nodes[k] == ids[idx[k]])
      && (forall k :: 0 < k < |idx| ==> idx[k - 1] < idx[k])
      && (forall k :: 0 <= k < |c.edges| ==> c.edges[k].from == c.nodes[k] && c.edges[k].to == c.nodes[k + 1])
      && (forall k :: 0 <= k < |c.edges| ==> FarEnough(g, gc, minDist, c.nodes[k], c.nodes[k + 1]))
      && (forall k, j :: 0 <= k < |idx| && idx[k] < j < |ids| && (k + 1 < |idx| ==> j < idx[k + 1]) ==>
            TooClose(g, gc, minDist, c.nodes[k], ids[j]))
  {
    assert Kept(g, gc, minDist, ids, 1, Start(ids[0]), [0]);
    idx := RunKeeps(g, gc, minDist, ids, 1, Start(ids[0]), [0]);
  }

  // ---------------------------------------------------------------------
  // Edge lengths

  /** The distance oracle never returns a negative value. */
  ghost predicate NonNegative(gc: GreatCircle) {
    forall a, b, c, d :: gc(a, b, c, d) >= 0.0
  }

  /** The running length is never negative, and every kept edge is at least as long as
      the distance between its endpoints. */
  ghost predicate LengthsCover(g: Graph, gc: GreatCircle, st: ChainState) {
    && st.curLen >= 0.0
    && forall k :: 0 <= k < |st.edges| ==>
         var d := Distance(g, gc, st.edges[k].from, st.edges[k].to);
         d.Ok? && st.edges[k].length >= d.value
  }

  lemma {:induction false} RunLengthsCover(g: Graph, gc: GreatCircle, minDist: real, ids: seq<NodeId>, i: nat,
                                           st: ChainState)
    requires NonNegative(gc) && i <= |ids| && LengthsCover(g, gc, st)
    requires Run(g, gc, minDist, ids, i, st).Ok?
    ensures LengthsCover(g, gc, Run(g, gc, minDist, ids, i, st).value)
    decreases |ids| - i
  {
    if i < |ids| {
      var next := Step(g, gc, minDist, st, ids[i]).value;
      assert LengthsCover(g, gc, next) by {
        if FarEnough(g, gc, minDist, st.prev, ids[i]) {
          assert next.edges == st.edges + [ChainEdge(st.prev, ids[i], st.curLen + Distance(g, gc, st.prev, ids[i]).value)];
        }
      }
      RunLengthsCover(g, gc, minDist, ids, i + 1, next);
    }
  }

  /** With a non-negative distance, each recorded edge length is at least the distance
      between the two kept nodes it joins. */
  lemma EdgeLengthAtLeastDistance(g: Graph, gc: GreatCircle, minDist: real, ids: seq<NodeId>, k: nat)
    requires NonNegative(gc)
    requires Simplified(g, gc, minDist, ids).Ok?
    requires k < |Simplified(g, gc, minDist, ids).value.edges|
    ensures var e := Simplified(g, gc, minDist, ids).value.edges[k];
      Distance(g, gc, e.from, e.to).Ok? && e.length >= Distance(g, gc, e.from, e.to).value
  {
    RunLengthsCover(g, gc, minDist, ids, 1, Start(ids[0]));
  }

  // ---------------------------------------------------------------------
  // Small inputs, failures and re-running

  /** A one-element chain is returned as it is, with no edges, whatever the graph. */
  lemma SingleNode(g: Graph, gc: GreatCircle, minDist: real, n: NodeId)
    ensures Simplified(g, gc, minDist, [n]) == Ok(Chain([n], []))
  {
  }

  /** A run that succeeds has read the coordinates of `prev` and of every node still to come. */
  lemma {:induction false} RunOkPositions(g: Graph, gc: GreatCircle, minDist: real, ids: seq<NodeId>, i: nat,
                                          st: ChainState)
    requires i <= |ids| && Run(g, gc, minDist, ids, i, st).Ok?
    ensures i < |ids| ==> Position(g, st.prev).Some?
    ensures forall j :: i <= j < |ids| ==> Position(g, ids[j]).Some?
    decreases |ids| - i
  {
    if i < |ids| {
      RunOkPositions(g, gc, minDist, ids, i + 1, Step(g, gc, minDist, st, ids[i]).value);
    }
  }

  /** A run that fails met a node, `prev` (that is `ids[p]`) or a later one, without coordinates. */
  lemma {:induction false} RunErrPosition(g: Graph, gc: GreatCircle, minDist: real, ids: seq<NodeId>, i: nat,
                                          st: ChainState, p: nat) returns (j: nat)
    requires i <= |ids| && p < i && ids[p] == st.prev
    requires Run(g, gc, minDist, ids, i, st).Err?
    ensures j < |ids| && Position(g, ids[j]).None?
    ensures Run(g, gc, minDist, ids, i, st).error == KeyNotFound
    decreases |ids| - i
  {
    if Distance(g, gc, st.prev, ids[i]).Err? {
      j := if Position(g, st.prev).None? then p else i;
    } else {
      var next := Step(g, gc, minDist, st, ids[i]).value;
      j := RunErrPosition(g, gc, minDist, ids, i + 1, next, if next.prev == ids[i] then i else p);
    }
  }

  /** The call fails exactly on an empty chain, with an `IndexError`, or on a chain of
      two or more nodes one of which lacks a coordinate, with a `KeyError`. */
  lemma SimplifiedFails(g: Graph, gc: GreatCircle, minDist: real, ids: seq<NodeId>)
    ensures Simplified(g, gc, minDist, ids).Err? <==>
      ids == [] || (|ids| >= 2 && exists j :: 0 <= j < |ids| && Position(g, ids[j]).None?)
    ensures ids == [] ==> Simplified(g, gc, minDist, ids) == Err(IndexOutOfRange)
    ensures ids != [] && Simplified(g, gc, minDist, ids).Err? ==> Simplified(g, gc, minDist, ids).error == KeyNotFound
  {
    if ids != [] {
      var r := Run(g, gc, minDist, ids, 1, Start(ids[0]));
      if r.Ok? {
        RunOkPositions(g, gc, minDist, ids, 1, Start(ids[0]));
        if |ids| >= 2 {
          forall j | 0 <= j < |ids| ensures Position(g, ids[j]).Some? {
          }
        }
      } else {
        var j := RunErrPosition(g, gc, minDist, ids, 1, Start(ids[0]), 0);
      }
    }
  }

  /** Running through a chain whose consecutive nodes are all far enough apart keeps
      every node. */
  lemma {:induction false} RunKeepsFarChain(g: Graph, gc: GreatCircle, minDist: real, s: seq<NodeId>, i: nat,
                                            st: ChainState)
    requires 1 <= i <= |s|
    requires st.kept == s[..i] && st.prev == s[i - 1]
    requires forall k :: 0 <= k < |s| - 1 ==> FarEnough(g, gc, minDist, s[k], s[k + 1])
    ensures Run(g, gc, minDist, s, i, st).Ok? && Run(g, gc, minDist, s, i, st).value.kept == s
    decreases |s| - i
  {
    if i == |s| {
      assert s[..i] == s;
    } else {
      assert FarEnough(g, gc, minDist, s[i - 1], s[i]);
      var next := Step(g, gc, minDist, st, s[i]).value;
      assert next.kept == s[..i + 1];
      RunKeepsFarChain(g, gc, minDist, s, i + 1, next);
    }
  }

  /** Simplifying the kept nodes again keeps all of them. */
  lemma SimplifyIdempotent(g: Graph, gc: GreatCircle, minDist: real, ids: seq<NodeId>)
    requires Simplified(g, gc, minDist, ids).Ok?
    ensures var kept := Simplified(g, gc, minDist, ids).value.nodes;
      Simplified(g, gc, minDist, kept).Ok? && Simplified(g, gc, minDist, kept).value.nodes == kept
  {
    var kept := Simplified(g, gc, minDist, ids).value.nodes;
    var idx := SimplifiedStructure(g, gc, minDist, ids);
    assert kept[..1] == [kept[0]];
    RunKeepsFarChain(g, gc, minDist, kept, 1, Start(kept[0]));
  }
}
